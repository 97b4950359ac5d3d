/** The namespace script of RDHTTP.  Objective-C has no namespaces, so the
    script copies the library sources with a chosen prefix put in front of
    every public RDHTTP identifier: globals, block typedefs and the category
    name by plain find/replace, class names only in a few syntactic contexts,
    and the `#import "RDHTTP.h"` line. */
module Namespace {
  import opened Wrappers
  import opened PhpStrings
  import opened PcreVarPattern

  // ------------------------------------------------------------ identifiers

  const Globals: seq<string> := ["RDHTTPResponseCodeErrorDomain"]

  const BlockTypes: seq<string> :=
    ["rdhttp_block_t", "rdhttp_header_block_t", "rdhttp_progress_block_t",
     "rdhttp_trustssl_block_t", "rdhttp_httpauth_block_t"]

  const Categories: seq<string> := ["RDHTTPPrivate"]

  const Classes: seq<string> :=
    ["RDHTTPFormPost", "RDHTTPOperation", "RDHTTPResponse", "RDHTTPChallangeDecision",
     "RDHTTPAuthorizer", "RDHTTPSSLServerTrust", "RDHTTPRequest",
     "RDHTTPMultipartPostStream", "RDHTTPThread"]

  /** The names rewritten by plain find/replace, in the order they are applied. */
  const ReplacesFrom: seq<string> := Globals + BlockTypes + Categories

  const ImportLine: string := "#import \"RDHTTP.h\""

  function ImportTo(prefix: string): string {
    "#import \"" + prefix + "RDHTTP.h\""
  }

  // ------------------------------------------------------------ replaces_to

  /** Names beginning with a lower-case `r` (the block typedefs) take the
      prefix in lower case; every other name takes it as given. */
  function LocalPrefix(prefix: string, name: string): string {
    if |name| > 0 && name[0] == 'r' then Lower(prefix) else prefix
  }

  /** The replacement for each name of ReplacesFrom, entry for entry. */
  function ReplacesTo(prefix: string): (to: seq<string>)
    ensures |to| == |ReplacesFrom|
  {
    seq(|ReplacesFrom|, i requires 0 <= i < |ReplacesFrom| =>
      LocalPrefix(prefix, ReplacesFrom[i]) + ReplacesFrom[i])
  }

  /** The foreach loop that fills replaces_to with array_push. */
  method BuildReplacements(from: seq<string>, prefix: string) returns (to: seq<string>)
    ensures |to| == |from|
    ensures forall i :: 0 <= i < |from| ==> to[i] == LocalPrefix(prefix, from[i]) + from[i]
  {
    to := [];
    for j := 0 to |from|
      invariant |to| == j
      invariant forall i :: 0 <= i < j ==> to[i] == LocalPrefix(prefix, from[i]) + from[i]
    {
      var localPrefix := prefix;
      if |from[j]| > 0 && from[j][0] == 'r' {
        localPrefix := Lower(prefix);
      }
      to := to + [localPrefix + from[j]];
    }
  }

  /** The replacements in full: the global and the category take the prefix
      as given, the five block typedefs take it in lower case. */
  lemma ReplacesToValues(prefix: string)
    ensures ReplacesTo(prefix)
         == [prefix + "RDHTTPResponseCodeErrorDomain",
             Lower(prefix) + "rdhttp_block_t", Lower(prefix) + "rdhttp_header_block_t",
             Lower(prefix) + "rdhttp_progress_block_t", Lower(prefix) + "rdhttp_trustssl_block_t",
             Lower(prefix) + "rdhttp_httpauth_block_t",
             prefix + "RDHTTPPrivate"]
  {
    var to := ReplacesTo(prefix);
    assert ReplacesFrom[0] == "RDHTTPResponseCodeErrorDomain";
    assert ReplacesFrom[6] == "RDHTTPPrivate";
    assert to[0] == prefix + ReplacesFrom[0];
    assert to[6] == prefix + ReplacesFrom[6];
    forall i | 1 <= i <= 5 ensures to[i] == Lower(prefix) + ReplacesFrom[i] {
      assert ReplacesFrom[i] == BlockTypes[i - 1];
      assert ReplacesFrom[i][0] == 'r';
    }
  }

  // ------------------------------------------------------------ class rules

  /** The six rewrites applied for one class name C: the variable pattern
      `C(\s+)\*`, then the literal contexts `[C `, `@class C`, `@interface C`,
      ` : C` and `@implementation C`. */
  function ClassStep(s: string, c: string, prefix: string): string {
    var s1 := ReplaceVar(s, c, prefix + c + "\\1*");
    var s2 := ReplaceAll(s1, "[" + c + " ", "[" + prefix + c + " ");
    var s3 := ReplaceAll(s2, "@class " + c, "@class " + prefix + c);
    var s4 := ReplaceAll(s3, "@interface " + c, "@interface " + prefix + c);
    var s5 := ReplaceAll(s4, " : " + c, " : " + prefix + c);
    ReplaceAll(s5, "@implementation " + c, "@implementation " + prefix + c)
  }

  /** ClassStep for each class in turn, each on the output of the one before. */
  function ClassRules(s: string, classes: seq<string>, prefix: string): string
    decreases |classes|
  {
    if classes == [] then s
    else ClassRules(ClassStep(s, classes[0], prefix), classes[1..], prefix)
  }

  /** Running the class rules from position i is the rule for class i
      followed by the rules from position i + 1. */
  lemma ClassRulesFrom(s: string, classes: seq<string>, i: nat, prefix: string)
    requires i < |classes|
    ensures ClassRules(s, classes[i..], prefix) == ClassRules(ClassStep(s, classes[i], prefix), classes[i + 1..], prefix)
  {
    assert classes[i..][1..] == classes[i + 1..];
  }

  /** rdhttp_apply_namespace as a value: find/replace of the plain names, the
      class rules, then the import line. */
  function Rewrite(contents: string, prefix: string): string {
    var s := ReplaceEach(contents, ReplacesFrom, ReplacesTo(prefix));
    ReplaceAll(ClassRules(s, Classes, prefix), ImportLine, ImportTo(prefix))
  }

  /** rdhttp_apply_namespace, with `contents` reassigned statement by statement. */
  method ApplyNamespace(contents: string, prefix: string) returns (r: string)
    ensures r == Rewrite(contents, prefix)
  {
    var replacesFrom := Globals + BlockTypes + Categories;
    var replacesTo := BuildReplacements(replacesFrom, prefix);
    assert replacesTo == ReplacesTo(prefix);
    r := ReplaceEach(contents, replacesFrom, replacesTo);
    ghost var afterNames := r;
    var i := 0;
    while i < |Classes|
      invariant 0 <= i <= |Classes|
      invariant ClassRules(r, Classes[i..], prefix) == ClassRules(afterNames, Classes, prefix)
    {
      var c := Classes[i];
      ghost var before := r;
      r := ReplaceVar(r, c, prefix + c + "\\1*");
      r := ReplaceAll(r, "[" + c + " ", "[" + prefix + c + " ");
      r := ReplaceAll(r, "@class " + c, "@class " + prefix + c);
      r := ReplaceAll(r, "@interface " + c, "@interface " + prefix + c);
      r := ReplaceAll(r, " : " + c, " : " + prefix + c);
      r := ReplaceAll(r, "@implementation " + c, "@implementation " + prefix + c);
      assert r == ClassStep(before, c, prefix);
      ClassRulesFrom(before, Classes, i, prefix);
      i := i + 1;
    }
    r := ReplaceAll(r, ImportLine, ImportTo(prefix));
  }

  // ------------------------------------------------------------ properties

  /** A literal context rule `before C after` -> `before P C after` puts the
      prefix directly before C at the leftmost occurrence of the context,
      keeps the text before it byte for byte and goes on only after the
      rewritten context. */
  lemma ContextInsertsPrefix(s: string, before: string, c: string, after: string, prefix: string, k: nat)
    requires before + c + after != [] && FirstMatch(s, before + c + after) == Some(k)
    ensures k + |before + c + after| <= |s| && s[k..k + |before + c + after|] == before + c + after
    ensures ReplaceAll(s, before + c + after, before + prefix + c + after)
         == s[..k] + before + prefix + c + after
            + ReplaceAll(s[k + |before + c + after|..], before + c + after, before + prefix + c + after)
  {
    var f := before + c + after;
    var t := before + prefix + c + after;
    ReplaceAllAt(s, f, t, k);
    AppendAssoc5(s[..k], before, prefix, c, after, ReplaceAll(s[k + |f|..], f, t));
  }

  /** None of the six class rules for C finds anything in `s`: there is no
      match of C(\s+)\* and none of the five literal contexts occurs.  Other
      mentions of C, as in comments or protocol lists, are allowed. */
  ghost predicate ClassUntouched(s: string, c: string) {
    && FirstVarMatch(s, c).None?
    && !Occurs("[" + c + " ", s)
    && !Occurs("@class " + c, s)
    && !Occurs("@interface " + c, s)
    && !Occurs(" : " + c, s)
    && !Occurs("@implementation " + c, s)
  }

  /** The six rules for one class leave a text unchanged when none of them
      finds anything. */
  lemma ClassStepUnchanged(s: string, c: string, prefix: string)
    requires ClassUntouched(s, c)
    ensures ClassStep(s, c, prefix) == s
  {
    var s1 := ReplaceVar(s, c, prefix + c + "\\1*");
    ReplaceVarNoMatch(s, c, prefix + c + "\\1*");
    var s2 := ReplaceAll(s1, "[" + c + " ", "[" + prefix + c + " ");
    ReplaceAllUnchanged(s, "[" + c + " ", "[" + prefix + c + " ");
    var s3 := ReplaceAll(s2, "@class " + c, "@class " + prefix + c);
    ReplaceAllUnchanged(s, "@class " + c, "@class " + prefix + c);
    var s4 := ReplaceAll(s3, "@interface " + c, "@interface " + prefix + c);
    ReplaceAllUnchanged(s, "@interface " + c, "@interface " + prefix + c);
    var s5 := ReplaceAll(s4, " : " + c, " : " + prefix + c);
    ReplaceAllUnchanged(s, " : " + c, " : " + prefix + c);
    ReplaceAllUnchanged(s, "@implementation " + c, "@implementation " + prefix + c);
    assert s1 == s && s2 == s && s3 == s && s4 == s && s5 == s;
  }

  /** A text that does not mention C at all gives none of its rules anything to do. */
  lemma ClassUntouchedIfAbsent(s: string, c: string)
    requires !Occurs(c, s)
    ensures ClassUntouched(s, c)
  {
    if FirstVarMatch(s, c).Some? {
      var k := FirstVarMatch(s, c).value;
      VarMatchStartsWithName(s[k..], c);
      assert s[k..][..|c|] == s[k..k + |c|];
      assert MatchAt(s, c, k);
    }
    ContextAbsent(s, "[" + c + " ", "[", c, " ");
    ContextAbsent(s, "@class " + c, "@class ", c, "");
    ContextAbsent(s, "@interface " + c, "@interface ", c, "");
    ContextAbsent(s, " : " + c, " : ", c, "");
    ContextAbsent(s, "@implementation " + c, "@implementation ", c, "");
  }

  /** A context that contains C cannot occur where C does not. */
  lemma ContextAbsent(s: string, f: string, before: string, c: string, after: string)
    requires f == before + c + after && !Occurs(c, s)
    ensures !Occurs(f, s)
  {
    if Occurs(f, s) {
      OccursInside(before, c, after, s);
    }
  }

  lemma {:induction false} ClassRulesUnchanged(s: string, classes: seq<string>, prefix: string)
    requires forall i :: 0 <= i < |classes| ==> ClassUntouched(s, classes[i])
    ensures ClassRules(s, classes, prefix) == s
    decreases |classes|
  {
    if classes != [] {
      ClassStepUnchanged(s, classes[0], prefix);
      assert forall i :: 0 <= i < |classes[1..]| ==> ClassUntouched(s, classes[1..][i]) by {
        forall i | 0 <= i < |classes[1..]| ensures ClassUntouched(s, classes[1..][i]) {
          assert classes[1..][i] == classes[i + 1];
        }
      }
      ClassRulesUnchanged(s, classes[1..], prefix);
    }
  }

  /** A text that mentions none of the class names leaves every class rule idle. */
  lemma ClassesUntouchedIfAbsent(s: string, classes: seq<string>)
    requires NoneOccur(classes, s)
    ensures forall i :: 0 <= i < |classes| ==> ClassUntouched(s, classes[i])
  {
    forall i | 0 <= i < |classes| ensures ClassUntouched(s, classes[i]) {
      ClassUntouchedIfAbsent(s, classes[i]);
    }
  }

  /** A text holding none of the rewritten names, nothing any class rule
      matches and no import line comes back unchanged, whatever the prefix. */
  lemma RewriteUnchanged(s: string, prefix: string)
    requires NoneOccur(ReplacesFrom, s) && !Occurs(ImportLine, s)
    requires forall i :: 0 <= i < |Classes| ==> ClassUntouched(s, Classes[i])
    ensures Rewrite(s, prefix) == s
  {
    ReplaceEachUnchanged(s, ReplacesFrom, ReplacesTo(prefix));
    ClassRulesUnchanged(s, Classes, prefix);
    ReplaceAllUnchanged(s, ImportLine, ImportTo(prefix));
  }

  /** The import rule puts the prefix in front of the header name at the
      leftmost `#import "RDHTTP.h"` and goes on after it. */
  lemma ImportInsertsPrefix(s: string, prefix: string, k: nat)
    requires FirstMatch(s, ImportLine) == Some(k)
    ensures k + |ImportLine| <= |s| && s[k..k + |ImportLine|] == ImportLine
    ensures ReplaceAll(s, ImportLine, ImportTo(prefix))
         == s[..k] + "#import \"" + prefix + "RDHTTP.h\""
            + ReplaceAll(s[k + |ImportLine|..], ImportLine, ImportTo(prefix))
  {
    ReplaceAllAt(s, ImportLine, ImportTo(prefix), k);
    AppendAssoc4(s[..k], "#import \"", prefix, "RDHTTP.h\"", ReplaceAll(s[k + |ImportLine|..], ImportLine, ImportTo(prefix)));
  }

  lemma ImportLineHead()
    ensures |ImportLine| == 18
    ensures forall i :: 0 <= i <= 6 ==> ImportLine[i] != 'R'
    ensures forall i :: 0 <= i <= 4 ==> ImportLine[i] != 'r'
  {
  }

  /** The import line holds none of the rewritten names and no class name. */
  lemma ImportLineHasNoNames()
    ensures NoneOccur(ReplacesFrom, ImportLine) && NoneOccur(Classes, ImportLine)
  {
    ImportLineHead();
    forall k | 0 <= k < |ReplacesFrom| ensures !Occurs(ReplacesFrom[k], ImportLine) {
      AbsentByHead(ImportLine, ReplacesFrom[k]);
    }
    forall k | 0 <= k < |Classes| ensures !Occurs(Classes[k], ImportLine) {
      AbsentByHead(ImportLine, Classes[k]);
    }
  }

  /** The import line on its own comes out naming the prefixed header, for
      every prefix. */
  lemma ImportLineRewritten(prefix: string)
    ensures Rewrite(ImportLine, prefix) == ImportTo(prefix)
  {
    ImportLineHasNoNames();
    ReplaceEachUnchanged(ImportLine, ReplacesFrom, ReplacesTo(prefix));
    ClassesUntouchedIfAbsent(ImportLine, Classes);
    ClassRulesUnchanged(ImportLine, Classes, prefix);
    assert FirstMatch(ImportLine, ImportLine) == Some(0);
    ReplaceAllAt(ImportLine, ImportLine, ImportTo(prefix), 0);
    assert ImportLine[18..] == [];
  }

  // ------------------------------------------------------------ the script

  /** The prefix as used: the argument trimmed and upper-cased. */
  function EffectivePrefix(arg: string): string {
    Upper(Trim(arg))
  }

  /** The argument with its surrounding blanks removed, upper-cased. */
  lemma EffectivePrefixOf(x: string, m: string, y: string)
    requires AllTrimChars(x) && AllTrimChars(y)
    requires m != [] ==> !IsTrimChar(m[0]) && !IsTrimChar(m[|m| - 1])
    ensures EffectivePrefix(x + m + y) == Upper(m)
    ensures |EffectivePrefix(x + m + y)| == |m|
    ensures forall i :: 0 <= i < |m| ==> !IsLowerAscii(EffectivePrefix(x + m + y)[i])
  {
    TrimUnique(x, m, y);
    UpperProperties(m);
  }

  /** Normalising an already normalised prefix changes nothing. */
  lemma EffectivePrefixIdempotent(arg: string)
    ensures EffectivePrefix(EffectivePrefix(arg)) == EffectivePrefix(arg)
  {
    var m := Trim(arg);
    TrimEnds(arg);
    var u := Upper(m);
    UpperProperties(m);
    assert u != [] ==> !IsTrimChar(u[0]) && !IsTrimChar(u[|u| - 1]);
    TrimTrimmed(u);
  }


  /** Each output is written next to the script as the prefix followed by
      the input's file name. */
  function OutputName(prefix: string, file: string): string {
    prefix + file
  }

  const Files: seq<string> := ["RDHTTP.h", "RDHTTP.m"]

  const AbortMessage: string := "1-letter prefix are not recommented.\n"

  /** The two outputs never share a name, so the second write cannot
      replace the first. */
  lemma OutputNamesDistinct(prefix: string)
    ensures OutputName(prefix, Files[0]) != OutputName(prefix, Files[1])
    ensures forall i :: 0 <= i < |Files| ==>
      var n := OutputName(prefix, Files[i]);
      |n| == |prefix| + |Files[i]| && n[..|prefix|] == prefix && n[|prefix|..] == Files[i]
  {
    var a := OutputName(prefix, Files[0]);
    var b := OutputName(prefix, Files[1]);
    assert a[|a| - 1] == 'h' && b[|b| - 1] == 'm';
  }

  /** Where an input is read from and an output is written to, for the
      directory `dir` that holds the script. */
  function InputPath(dir: string, file: string): string {
    dir + "/RDHTTP/" + file
  }

  function OutputPath(dir: string, prefix: string, file: string): string {
    dir + "/" + OutputName(prefix, file)
  }

  /** As path strings, the first output is never the input read after it,
      so reading every input before any write gives the same contents. The
      first output's path string is its own input's path string exactly for
      the prefix "RDHTTP/". (Paths are compared as strings; "./RDHTTP/" names
      the same file through a different string.) */
  lemma WriteDoesNotFeedNextRead(dir: string, prefix: string)
    ensures OutputPath(dir, prefix, Files[0]) != InputPath(dir, Files[1])
    ensures OutputPath(dir, prefix, Files[0]) == InputPath(dir, Files[0]) <==> prefix == "RDHTTP/"
  {
    var o := OutputPath(dir, prefix, Files[0]);
    var i1 := InputPath(dir, Files[1]);
    assert o[|o| - 1] == 'h' && i1[|i1| - 1] == 'm';
    var i0 := InputPath(dir, Files[0]);
    assert o == dir + "/" + prefix + "RDHTTP.h";
    assert i0 == dir + "/" + "RDHTTP/" + "RDHTTP.h";
    if o == i0 {
      assert |prefix| == 7;
      assert prefix == o[|dir| + 1..|dir| + 8] == i0[|dir| + 1..|dir| + 8];
    }
  }

  /** The contents of an input file; a file that cannot be read yields the
      empty text, as PHP's `false` does once it is used as a string. */
  function Read(inputs: map<string, string>, file: string): string {
    if file in inputs then inputs[file] else ""
  }

  /** The (file name, contents) pairs the script writes, in order. */
  function Expected(inputs: map<string, string>, prefix: string): (r: seq<(string, string)>)
    ensures |r| == |Files|
  {
    seq(|Files|, i requires 0 <= i < |Files| =>
      (OutputName(prefix, Files[i]), Rewrite(Read(inputs, Files[i]), prefix)))
  }

  lemma PrefixSnoc<T>(a: seq<T>, j: nat)
    requires j < |a|
    ensures a[..j + 1] == a[..j] + [a[j]]
  {
  }

  datatype Outcome =
    | Usage                                      // no argument: usage text, exit
    | Aborted(message: string)                   // die() with this message
    | Written(outputs: seq<(string, string)>)    // (file name, contents) in write order

  /** The script's top level: the argument check, the prefix check, then one
      rewrite per library file.  `inputs` maps the file names of the RDHTTP
      directory to their contents. */
  method Generate(arg: Option<string>, inputs: map<string, string>) returns (outcome: Outcome)
    ensures outcome.Usage? <==> arg.None?
    ensures outcome.Aborted? <==> arg.Some? && |EffectivePrefix(arg.value)| < 2
    ensures outcome.Aborted? ==> outcome.message == AbortMessage
    ensures outcome.Written? ==>
      && arg.Some?
      && |outcome.outputs| == |Files|
      && (forall i :: 0 <= i < |Files| ==>
            outcome.outputs[i] == (OutputName(EffectivePrefix(arg.value), Files[i]),
                                   Rewrite(Read(inputs, Files[i]), EffectivePrefix(arg.value))))
  {
    if arg.None? {
      return Usage;
    }
    var prefix := Upper(Trim(arg.value));
    if |prefix| < 2 {
      return Aborted(AbortMessage);
    }
    var outputs: seq<(string, string)> := [];
    ghost var expected := Expected(inputs, prefix);
    for j := 0 to |Files|
      invariant outputs == expected[..j]
    {
      var file := Files[j];
      var contents := Read(inputs, file);
      contents := ApplyNamespace(contents, prefix);
      assert (prefix + file, contents) == expected[j];
      PrefixSnoc(expected, j);
      outputs := outputs + [(prefix + file, contents)];
    }
    assert expected[..|Files|] == expected;
    ExpectedOutputs(inputs, prefix, outputs);
    return Written(outputs);
  }

  lemma ExpectedOutputs(inputs: map<string, string>, prefix: string, outputs: seq<(string, string)>)
    requires outputs == Expected(inputs, prefix)
    ensures |outputs| == |Files|
    ensures forall i :: 0 <= i < |Files| ==>
      outputs[i] == (OutputName(prefix, Files[i]), Rewrite(Read(inputs, Files[i]), prefix))
  {
  }
}
