# RDHTTP namespace script, modelled in Dafny

RDHTTP is an Objective-C HTTP library. Objective-C has no namespaces, so a
program that links two copies of the library (or another library with the
same class names) has a clash. The repository's `namespace.php` script
solves this by making prefixed copies of the library sources `RDHTTP.h` and
`RDHTTP.m`. Every public RDHTTP identifier gets a prefix chosen by the caller:

- the global `RDHTTPResponseCodeErrorDomain`, the five `rdhttp_*_t` block
  typedefs and the category `RDHTTPPrivate` are changed by a plain,
  ordered find/replace. A name starting with a lower-case `r` takes the
  prefix in lower case; every other name takes it in upper case;
- the nine class names are changed only in fixed contexts: `C <white
  space>*` (the white space is kept), `[C `, `@class C`, `@interface C`,
  ` : C` and `@implementation C`;
- `#import "RDHTTP.h"` becomes `#import "<prefix>RDHTTP.h"`.

The prefix is the command-line argument, trimmed and upper-cased. A prefix
shorter than two characters stops the script before it reads or writes any
file. Each output is named prefix + input file name.

The project has four modules:

- `Wrappers`: `Option`.
- `PhpStrings`: the PHP built-ins the script uses, with their own
  properties.
  - `trim()` strips its default character set " \t\n\r\0\x0B".
  - `strtoupper()`/`strtolower()` map ASCII only.
  - `str_replace()` in scalar form works left to right without overlaps,
    and resumes after each match. An empty search string leaves the subject
    unchanged.
  - `str_replace()` in array form is an in-order fold. A missing
    replacement entry counts as "".
- `PcreVarPattern`: the one regular expression of the script,
  `C(\s+)\*`, with PCRE's `\s` set (space, tab, LF, VT, FF, CR). It comes
  with `preg_replace`'s expansion of the replacement template:
  - back-references `\d`, `\dd`, `$d`, `$dd`, `${d}` and `${dd}`;
  - a backslash escapes a following `\` or `$`;
  - a group the match did not produce expands to nothing.
- `Namespace`: the script.
  - `ApplyNamespace` is `rdhttp_apply_namespace`. It is written as a
    method that reassigns the text statement by statement, as the PHP
    does, and is proved equal to the function `Rewrite`.
  - `BuildReplacements` is the `array_push` loop.
  - `Generate` is the top level. It checks the argument and the prefix,
    then rewrites each library file in turn.

A Dafny `char` stands for one byte of a PHP string.

The prefix is put unescaped into the replacement template of
`preg_replace`. So a prefix in which `\` or `$` starts a back-reference or
an escape (`$1`, `\1`, `${2}`, `\\`, `\$`) is read as template syntax; a `\`
or `$` followed by anything else (as in `A\B` or `AB$`) is copied as it is.
`ExpandDollarPrefix` shows the effect: the prefix `$1` is replaced by the
captured white space. `ExpandBackslashLetterPrefix` shows the other case:
the prefix `A\B` is copied. For this reason, the lemma that the class rule
inserts the prefix (`ReplaceVarInsertsPrefix`) assumes a prefix without `\`
and `$`.

Each model member follows what the code does for every prefix.

## Model

| member | source | states |
|---|---|---|
| `PhpStrings.Trim` | namespace.php:16 | trim() with its default set " \t\n\r\0\x0B": the argument without its leading and trailing trim characters, characterised by `TrimSplits`, `TrimEnds` and `TrimUnique` |
| `PhpStrings.TrimSplits` | namespace.php:16 | every argument is its trimmed form with trim characters only before and after it |
| `PhpStrings.TrimEnds` | namespace.php:16 | the trimmed form neither starts nor ends with a trim character |
| `PhpStrings.TrimUnique` | namespace.php:16 | trimming a text with only trim characters around a core that does not start or end with one gives exactly that core |
| `PhpStrings.TrimTrimmed` | namespace.php:16 | a text that neither starts nor ends with a trim character is its own trimmed form |
| `PhpStrings.Upper` | namespace.php:16 | strtoupper: each byte mapped on its own, `a`-`z` to `A`-`Z`, every other byte kept (`UpperProperties`) |
| `PhpStrings.Lower` | namespace.php:51 | strtolower: each byte mapped on its own, `A`-`Z` to `a`-`z`, every other byte kept (`LowerChar`) |
| `PhpStrings.UpperProperties` | namespace.php:16 | strtoupper keeps the length, leaves no lower-case ASCII letter, keeps every other byte and is idempotent |
| `PhpStrings.LowerOfUpper` | namespace.php:51 | lower-casing the upper-cased prefix is the same as lower-casing the original argument |
| `PhpStrings.FirstMatch` | namespace.php:60-65 | the position of the leftmost occurrence of the search string, as `FirstMatchSpec` characterises it; it drives the str_replace lemmas |
| `PhpStrings.FirstMatchSpec` | namespace.php:56 | the search finds the leftmost occurrence, and finds none only when the search text occurs nowhere |
| `PhpStrings.Scan` | namespace.php:60-65 | the left-to-right, non-overlapping replacement of a non-empty search string, resuming after each replaced occurrence (`ReplaceAllAt`, `ReplaceAllNoMatch`) |
| `PhpStrings.ReplaceAll` | namespace.php:60-65 | scalar str_replace; an empty search string leaves the subject as it is, otherwise `Scan` |
| `PhpStrings.ReplaceAllAt` | namespace.php:60-65 | at the leftmost occurrence, scalar str_replace keeps the text before it, puts the replacement in its place and continues only after the match, so inserted text is never searched again |
| `PhpStrings.ReplaceAllNoMatch` | namespace.php:60-65 | with no occurrence of the search string, scalar str_replace returns the text unchanged |
| `PhpStrings.ReplaceAllUnchanged` | namespace.php:60-65 | a text without the search string comes back unchanged |
| `PhpStrings.ReplaceEach` | namespace.php:56 | array str_replace: the pairs applied in order, each to the previous output, a missing replacement counting as "" (`ReplaceEachAppend`, `ReplaceEachUnchanged`) |
| `PhpStrings.ReplaceEachAppend` | namespace.php:46-56 | array str_replace over concatenated lists is the second list applied to the output of the first, so the globals, block types and category are replaced in that order |
| `PhpStrings.ReplaceEachUnchanged` | namespace.php:56 | array str_replace leaves a text holding none of the search strings unchanged |
| `PcreVarPattern.SpaceRun` | namespace.php:59 | the length of the greedy `\s+` run at the start of the text (`SpaceRunSpec`) |
| `PcreVarPattern.SpaceRunSpec` | namespace.php:59 | the greedy `\s` run holds only PCRE white space and stops at the first byte that is not white space |
| `PcreVarPattern.VarMatch` | namespace.php:59 | the match of `C(\s+)\*` at the start of the text, as the length of group 1, characterised by `VarMatchIsPcre` |
| `PcreVarPattern.VarMatchIsPcre` | namespace.php:59 | the greedy matcher reports a match with group 1 of length n exactly when `C(\s+)\*` matches with that group, backtracking included |
| `PcreVarPattern.FirstVarMatch` | namespace.php:59 | the leftmost position where `C(\s+)\*` matches (`FirstVarMatchSpec`) |
| `PcreVarPattern.FirstVarMatchSpec` | namespace.php:59 | the scan finds the leftmost match of `C(\s+)\*`, and finds none only when there is none |
| `PcreVarPattern.BackRef` | namespace.php:59 | the back-reference at the start of a template: `\d`, `\dd`, `$d`, `$dd`, `${d}` or `${dd}`, with the group and the length it spans |
| `PcreVarPattern.ExpandFrom` | namespace.php:59 | preg_replace's walk over the template: back-references expand to their group or to nothing, a backslash escapes a following `\` or `$`, other bytes are copied (`ExpandPlainText`, `ExpandVarTemplate`, `ExpandDollarPrefix`) |
| `PcreVarPattern.Expand` | namespace.php:59 | the replacement text for one match, the whole template walked from the start |
| `PcreVarPattern.ExpandPlainText` | namespace.php:59 | template text without `\` or `$` is copied into the replacement as it is |
| `PcreVarPattern.ExpandVarTemplate` | namespace.php:59 | for a prefix and class name without `\` or `$`, the template `PC\1*` expands to prefix, class name, captured white space, `*` |
| `PcreVarPattern.ExpandDollarPrefix` | namespace.php:59 | with the prefix `$1` the template expands to the captured white space in place of the prefix |
| `PcreVarPattern.ExpandBackslashLetterPrefix` | namespace.php:59 | a `\` in the prefix that starts neither a back-reference nor an escape is copied: the prefix `A\B` reaches the output as it is |
| `PcreVarPattern.Replacement` | namespace.php:59 | the template expanded with the whole match as group 0 and the white space between C and `*` as group 1 |
| `PcreVarPattern.ReplaceVar` | namespace.php:59 | preg_replace with `C(\s+)\*`: every match, leftmost first and without overlap, replaced by the expanded template (`ReplaceVarNoMatch`, `ReplaceVarLeftmost`) |
| `PcreVarPattern.ReplaceVarNoMatch` | namespace.php:59 | with no match preg_replace returns the text unchanged |
| `PcreVarPattern.ReplaceVarLeftmost` | namespace.php:59 | preg_replace keeps the text before the leftmost match, replaces the match by the expanded template and continues after the match's `*` |
| `PcreVarPattern.ReplaceVarInsertsPrefix` | namespace.php:59 | the leftmost match is C, white space only, then `*`, and it becomes prefix + C + the same white space + `*`; the text before it is kept byte for byte |
| `PcreVarPattern.ReplaceVarUnchanged` | namespace.php:59 | a text without the class name comes back unchanged |
| `Namespace.LocalPrefix` | namespace.php:49-51 | a name starting with `r` takes the lower-cased prefix, every other name the prefix as given (`ReplacesToValues`) |
| `Namespace.ReplacesTo` | namespace.php:46-54 | replaces_to as a value: the local prefix followed by each name of replaces_from, in order (`BuildReplacements`, `ReplacesToValues`) |
| `Namespace.BuildReplacements` | namespace.php:47-54 | replaces_to has one entry per name and entry i is the local prefix followed by name i |
| `Namespace.ReplacesToValues` | namespace.php:33-54 | replaces_to is the prefix as given before the global and the category, and the lower-cased prefix before the five block typedefs, in that order |
| `Namespace.ClassStep` | namespace.php:59-65 | the six rewrites for one class name, in the script's order, each on the output of the one before |
| `Namespace.ClassRules` | namespace.php:58-66 | `ClassStep` for each of the nine classes in turn |
| `Namespace.ImportTo` | namespace.php:68 | the rewritten import line `#import "<prefix>RDHTTP.h"` |
| `Namespace.Rewrite` | namespace.php:32-71 | rdhttp_apply_namespace as a value: array str_replace of the plain names, the class rules, then the import rule (`ApplyNamespace`, `RewriteUnchanged`, `ImportLineRewritten`) |
| `Namespace.ApplyNamespace` | namespace.php:32-71 | the statement-by-statement rewrite, including the loop over the classes, computes Rewrite |
| `Namespace.ContextInsertsPrefix` | namespace.php:60-65 | at the leftmost occurrence of the context, a context rule puts the prefix directly before C, keeps the text before it and continues after it |
| `Namespace.ClassStepUnchanged` | namespace.php:59-65 | the six rules for one class leave a text unchanged when `C(\s+)\*` does not match it and none of the five contexts occurs in it; other mentions of C may be present |
| `Namespace.ClassUntouchedIfAbsent` | namespace.php:59-65 | a text that does not mention C gives none of its six rules a match |
| `Namespace.ClassesUntouchedIfAbsent` | namespace.php:58-66 | a text that mentions none of the class names gives no class rule a match |
| `Namespace.ClassRulesUnchanged` | namespace.php:58-66 | the loop over the classes leaves a text unchanged when no class rule finds a match in it |
| `Namespace.RewriteUnchanged` | namespace.php:56-70 | a text holding none of the plain names, nothing any class rule matches and no import line comes back unchanged, whatever the prefix |
| `Namespace.ImportInsertsPrefix` | namespace.php:68 | the leftmost `#import "RDHTTP.h"` becomes `#import "<prefix>RDHTTP.h"`, the text before it is kept and the rule continues after it |
| `Namespace.ImportLineHasNoNames` | namespace.php:33-42 | the import line contains none of the rewritten names and no class name |
| `Namespace.ImportLineRewritten` | namespace.php:68 | the whole rewrite turns the import line into `#import "<prefix>RDHTTP.h"` for every prefix |
| `Namespace.EffectivePrefix` | namespace.php:16 | the prefix as used: the argument trimmed, then upper-cased (`EffectivePrefixOf`) |
| `Namespace.EffectivePrefixOf` | namespace.php:16 | the prefix is the argument without its surrounding trim characters, upper-cased: same length, no lower-case letter |
| `Namespace.EffectivePrefixIdempotent` | namespace.php:16 | normalising an already normalised prefix changes nothing |
| `Namespace.OutputName` | namespace.php:29 | an output is named prefix + input file name (`OutputNamesDistinct`) |
| `Namespace.OutputNamesDistinct` | namespace.php:24-29 | each output name is the prefix followed by the input file name, and the two outputs never share a name |
| `Namespace.InputPath` | namespace.php:21-27 | an input is read from `<dir>/RDHTTP/<file>` |
| `Namespace.OutputPath` | namespace.php:22-29 | an output is written to `<dir>/<prefix><file>` |
| `Namespace.WriteDoesNotFeedNextRead` | namespace.php:21-29 | as path strings, the first output never names the second input, and the first output's path equals its own input's path exactly when the prefix is `RDHTTP/` |
| `Namespace.Read` | namespace.php:27 | the contents of an input; a file that cannot be read gives "" |
| `Namespace.Expected` | namespace.php:26-29 | the (name, contents) pairs the loop writes, in order (`Generate`) |
| `Namespace.Generate` | namespace.php:3-29 | no argument gives the usage outcome; a prefix under two characters aborts with the script's message and writes nothing; otherwise one output per library file, in order, named prefix + file name and holding Rewrite of that file's contents |

## Left out

- The usage text, `echo`, `exit` and `die` (namespace.php:3-14, 19) are not modelled as output. `Generate` returns `Usage` or `Aborted(message)` instead.
- `file_get_contents` and `file_put_contents` (namespace.php:27, 29) are not modelled as I/O. The inputs are a map parameter, taken before any write; `WriteDoesNotFeedNextRead` shows, for path strings, that this gives the same contents. The outputs are returned as a list. A missing input reads as "", as PHP's `false` does when used as a string. Write failures are not modelled.
- `dirname(__FILE__)` (namespace.php:21-22) is a parameter of the path functions.
- There is no general regex engine. Only the pattern shape `C(\s+)\*` with a literal class name is modelled. PCRE run-time errors, such as the backtrack limit that makes `preg_replace` return null, are left out.
- `PcreVarPattern.ReplaceVarInsertsPrefix` is proved only for prefixes without `\` and `$`. A prefix in which `\` or `$` starts a back-reference or an escape is not inserted literally by the source (see `ExpandDollarPrefix`); prefixes such as `A\B`, which the source does insert literally, are not covered by the lemma.
- `Namespace.WriteDoesNotFeedNextRead` compares path strings only; path resolution is not modelled. A prefix such as `./RDHTTP/` or `RDHTTP//` gives an output path that names the input file RDHTTP/RDHTTP.h through a different string, so the first output then overwrites that input, after it has been read.
- No lemma gives the combined effect of all six class rules on text in which the rules' matches interact. Each rule's effect is stated on its own.
- No idempotence lemma is given for `Rewrite`. Applying the script twice prefixes the names twice through the `C(\s+)\*` rule.
- `strtoupper`/`strtolower` follow the ASCII mapping. Locale-dependent case mapping in older PHP versions is not modelled.
- The HTTP request engine that `RDHTTP.h`/`RDHTTP.m` declare is not part of this model. It runs on a transport's callbacks, dispatch queues and a background thread, and its implementation file is not among the sources. The demo application delegate (DemoAppFiles/RDHTTPAppDelegate.h) holds no logic.
