# NextSwapDex source-fix scripts, modelled in Dafny

The repository has two small maintenance scripts for a Solidity code base.
Each one walks a directory tree and rewrites every `.sol` file with one fixed
regular-expression substitution. Only files whose text changed are written
back, and each of their paths is printed.

- `fix_revert.py` puts a space into custom-error reverts written without one.
  It turns `revertFoo();` into `revert Foo();` using the pattern
  `revert([A-Z][a-zA-Z0-9]*)\(\);` and the replacement `revert \1();`.
- `fix_solidity_version.py` replaces the pinned pragma
  `pragma solidity =0.8.15;` with `pragma solidity ^0.8.20;`.

The model has four modules:

- `TreeRewrite` (`tree_rewrite.dfy`) is the loop both scripts share. The
  file tree is a `map<string, string>` from path to text. The walk is the
  sequence of paths in the order the directory walk yields them.
  `RewriteTree` is that loop as a method with a `for` loop, taking any
  text transform. It is proved equal to the specification function `Run`.
  Lemmas about `Run` and `ChangedPaths` state what a run writes and
  reports.
- `FixRevert` (`fix_revert.dfy`) is the revert substitution. `MatchAt` is a
  hand-written matcher for the one pattern. It is proved equal to the
  declarative `MatchOf`, which states what the regular expression accepts.
  `FixReverts` does `re.sub`'s leftmost, non-overlapping, left-to-right
  scan. `Captures` lists the identifiers the scan captures.
- `FixRevertScript` (`fix_revert_script.dfy`) is the revert script as a whole:
  the substitution run through the shared loop.
- `FixSolidityVersion` (`fix_solidity_version.dfy`) is the pragma
  substitution `FixPragma` with its properties, and that script as a whole.

A second run of a script is expected to change nothing. That holds
unconditionally for the pragma script (`FixSolidityVersion.FixPragmaIdempotent`).
It does not hold unconditionally for the revert script: the model follows
the code. The pattern has no word boundary, so a captured identifier can
itself contain `revert` followed by an upper-case letter, as in
`revertXrevertFoo();`. A second pass then rewrites the nested call.
`FixRevert.FixRevertsIdempotentIff` states exactly when the second pass is
a no-op. `FixRevert.IdempotenceCounterexample` and
`FixRevert.SecondPassRewritesNested` show the counterexample.

## Model

| member | source | states |
|---|---|---|
| TreeRewrite.IsSolidity | NextSwapDex/fix_revert.py:13 | the case-sensitive `endswith('.sol')` test on a file name |
| TreeRewrite.ChangedPaths | NextSwapDex/fix_revert.py:24-27 | the paths the loop reports, in walk order. Each one is a walked `.sol` path, and there are no more of them than walked paths |
| TreeRewrite.RewriteTree | NextSwapDex/fix_revert.py:11-27 | the loop visits the walk in order. For a `.sol` path whose transformed text differs, it overwrites the file and appends the path to the report. The final tree and report equal the specification `Run` |
| TreeRewrite.Visit | NextSwapDex/fix_solidity_version.py:10-26 | one visit never adds or removes a file |
| TreeRewrite.Run | NextSwapDex/fix_solidity_version.py:8-26 | a run never adds or removes a file |
| TreeRewrite.ChangedPathsSnoc | NextSwapDex/fix_revert.py:24-27 | one more walked path adds that path to the report exactly when its visit changes it, and adds it at the end |
| TreeRewrite.ChangedPathsMembers | NextSwapDex/fix_solidity_version.py:23-26 | a path is reported exactly when the walk yields it, it ends in `.sol`, and the transform changes its text. A walk without repeats reports each path at most once |
| TreeRewrite.RunEffect | NextSwapDex/fix_revert.py:11-27 | with a walk without repeats, every walked `.sol` file ends up holding its transformed text and every other file is untouched. The report is the changed paths in walk order |
| TreeRewrite.RunIsSelective | NextSwapDex/fix_revert.py:13 | for any walk, a file that is not `.sol` or is not walked is never overwritten. Only walked `.sol` paths are ever reported |
| TreeRewrite.RunWithoutChanges | NextSwapDex/fix_revert.py:24 | if the transform changes no walked `.sol` file, nothing is written and nothing is reported |
| TreeRewrite.RerunIsNoOp | NextSwapDex/fix_solidity_version.py:23-26 | if the transform is idempotent on every walked `.sol` file, a second run writes and reports nothing |
| FixRevert.MatchOf | NextSwapDex/fix_revert.py:8 | the declarative form of the pattern at one position: `revert`, a group of letters and digits that starts upper-case, then `();` |
| FixRevert.RunLength | NextSwapDex/fix_revert.py:8 | the run of `[a-zA-Z0-9]` at the start is all letters and digits, and it is maximal: it ends the text or stops at another character |
| FixRevert.MatchAt | NextSwapDex/fix_revert.py:8 | a match found at the start has an identifier of at least one character, and the match fits in the text |
| FixRevert.MatchAtIsMatchOf | NextSwapDex/fix_revert.py:8 | the matcher reports identifier length `k` exactly when the regular expression matches at the start with a `k`-character group. The group is unique because `(` cannot extend the alphanumeric run |
| FixRevert.MatchOfIsSome | NextSwapDex/fix_revert.py:8 | any match the pattern accepts is the one the matcher finds |
| FixRevert.MatchedIdentifier | NextSwapDex/fix_revert.py:8 | the captured group starts with an upper-case letter and the rest is letters and digits |
| FixRevert.CapturesAreIdentifiers | NextSwapDex/fix_revert.py:8 | every identifier captured anywhere in the text fits `[A-Z][a-zA-Z0-9]*` |
| FixRevert.Spaced | NextSwapDex/fix_revert.py:21 | the replacement template `revert \1();` for one captured identifier |
| FixRevert.FixReverts | NextSwapDex/fix_revert.py:21 | `re.sub` of the pattern with that template: leftmost matches, left to right, without overlap; what it computes is stated by the lemmas below |
| FixRevert.Captures | NextSwapDex/fix_revert.py:8-21 | the `\1` values of the matches that `re.sub` replaces, in order |
| FixRevert.FixRevertsLength | NextSwapDex/fix_revert.py:21 | the output is exactly one character longer than the input per match, the inserted space |
| FixRevert.FixRevertsAtMatch | NextSwapDex/fix_revert.py:21 | at a match, the output is `revert `, the same identifier, `();`, and then the rewrite of the text after the `;`. The capture list starts with that identifier |
| FixRevert.FixRevertsElsewhere | NextSwapDex/fix_revert.py:21 | where no match starts, the character is copied and scanning moves on by one |
| FixRevert.FixRevertsOfCall | NextSwapDex/fix_revert.py:8-21 | `revert` glued to an identifier, then `();`, becomes `revert <identifier>();`, whatever follows |
| FixRevert.CallMatches | NextSwapDex/fix_revert.py:8 | `revert`, any identifier and `();` match the pattern, whatever follows |
| FixRevert.CopyPrefix | NextSwapDex/fix_revert.py:21 | every character before the first match is copied unchanged and captures nothing |
| FixRevert.CopyAll | NextSwapDex/fix_revert.py:21 | a text in which no match starts anywhere is returned unchanged |
| FixRevert.NoMatchInReplacement | NextSwapDex/fix_revert.py:8-21 | inside `revert <identifier>();`, no match starts before the end of the `;`, unless the identifier itself holds `revert` and an upper-case letter |
| FixRevert.SpacedCallUnchanged | NextSwapDex/fix_revert.py:8-21 | an already spaced call `revert Foo();` is left as it is and captures nothing, unless its identifier nests `revert` and an upper-case letter |
| FixRevert.NoMatchAfterFix | NextSwapDex/fix_revert.py:8-21 | if no captured identifier nests `revert` and an upper-case letter, the output has no match left |
| FixRevert.NestedKeywordSurvives | NextSwapDex/fix_revert.py:8-21 | if a captured identifier nests `revert` and an upper-case letter, the output still has a match |
| FixRevert.CapturesIffMatch | NextSwapDex/fix_revert.py:8 | the scan captures something exactly when the pattern matches anywhere in the text |
| FixRevert.UnchangedIffNoCapture | NextSwapDex/fix_revert.py:21 | the output equals the input exactly when nothing is captured |
| FixRevert.ChangedIffMatch | NextSwapDex/fix_revert.py:21-24 | the text changes, and so is written back, exactly when the pattern matches somewhere in it |
| FixRevert.FixRevertsIdempotentIff | NextSwapDex/fix_revert.py:8-21 | a second pass changes nothing exactly when no captured identifier nests `revert` followed by an upper-case letter |
| FixRevert.NoKeywordUnchanged | NextSwapDex/fix_revert.py:8-21 | a text without `revert` followed by an upper-case letter is unchanged and captures nothing |
| FixRevert.UnmatchedKeywordCopied | NextSwapDex/fix_revert.py:8 | `revert` followed by a space, a lower-case letter, `(` or the end of the text is copied, and scanning goes on after it |
| FixRevert.LowerCaseExample | NextSwapDex/fix_revert.py:8 | `revertfoo();` is left as it is, whatever follows |
| FixRevert.NoIdentifierExample | NextSwapDex/fix_revert.py:8 | `revert();` is left as it is, whatever follows |
| FixRevert.OtherCharCopied | NextSwapDex/fix_revert.py:21 | a character other than `r` is copied, whatever follows |
| FixRevert.WithoutRCopied | NextSwapDex/fix_revert.py:21 | a text without the letter `r` is copied and captures nothing, whatever follows |
| FixRevert.SpacedCallExample | NextSwapDex/fix_revert.py:8-21 | `revert AlreadySet();` is left as it is |
| FixRevert.NoMatchBeforeArguments | NextSwapDex/fix_revert.py:8 | in `revert`, an identifier and a `(` not followed by `)`, no match starts anywhere before the arguments |
| FixRevert.ArgumentsNotMatched | NextSwapDex/fix_revert.py:8-21 | `revert`, an identifier and a `(` not followed by `)` is not a match. It is copied unchanged and captures nothing, and only the arguments are rewritten |
| FixRevert.ArgumentExample | NextSwapDex/fix_revert.py:8-21 | `revertFoo(x);` is left as it is, whatever follows |
| FixRevert.InsideWordRewritten | NextSwapDex/fix_revert.py:8 | with no word boundary in the pattern, `xrevertFoo();` becomes `xrevert Foo();` |
| FixRevert.InsufficientBalanceExample | NextSwapDex/fix_revert.py:8-21 | `revertInsufficientBalance();` becomes `revert InsufficientBalance();` |
| FixRevert.TwoCallsRewritten | NextSwapDex/fix_revert.py:21 | two calls separated by another character are both rewritten in one pass, and both identifiers are captured in order |
| FixRevert.TwoRevertsExample | NextSwapDex/fix_revert.py:21 | `revertFoo();` and `revertBar();` on two lines are both rewritten in one pass |
| FixRevert.IdempotenceCounterexample | NextSwapDex/fix_revert.py:8-21 | the first pass over `revertXrevertFoo();` captures `XrevertFoo` and writes `revert XrevertFoo();` |
| FixRevert.SecondPassRewritesNested | NextSwapDex/fix_revert.py:8-21 | a second pass over `revert XrevertFoo();` rewrites it again, to `revert Xrevert Foo();` |
| FixRevertScript.FixRevertsInTree | NextSwapDex/fix_revert.py:11-27 | walked `.sol` files get the rewritten text and all other files are untouched. A path is reported, at most once and in walk order, exactly when its file has a match |
| FixRevertScript.RerunFixesNothing | NextSwapDex/fix_revert.py:11-27 | if no identifier captured in a walked `.sol` file nests `revert` and an upper-case letter, a second run writes and reports nothing |
| FixRevertScript.RerunReportsNested | NextSwapDex/fix_revert.py:11-27 | a walked `.sol` file with such a nested identifier is written and reported again by a second run |
| FixSolidityVersion.FixPragma | NextSwapDex/fix_solidity_version.py:18-20 | the output has the input's length, because pattern and replacement are both 24 characters |
| FixSolidityVersion.PatternLettersAfterFirst | NextSwapDex/fix_solidity_version.py:19 | `p` starts both the pattern and the replacement and occurs nowhere else in either |
| FixSolidityVersion.OccurrencesApart | NextSwapDex/fix_solidity_version.py:19 | two occurrences of the pattern never overlap, so the scan resuming after a replaced occurrence misses none |
| FixSolidityVersion.OccurrenceReplaced | NextSwapDex/fix_solidity_version.py:18-20 | at every occurrence in the input, not only the first, the output holds the replacement at the same place |
| FixSolidityVersion.UncoveredCopied | NextSwapDex/fix_solidity_version.py:18-20 | elsewhere, every character outside all occurrences is copied to the same place |
| FixSolidityVersion.NoOccurrenceInsideReplacement | NextSwapDex/fix_solidity_version.py:18-20 | no occurrence of the pattern in the output starts inside a replaced occurrence |
| FixSolidityVersion.NoOccurrenceAtCopied | NextSwapDex/fix_solidity_version.py:18-20 | no occurrence of the pattern in the output starts at a copied character |
| FixSolidityVersion.NoOccurrenceAfterFix | NextSwapDex/fix_solidity_version.py:18-20 | the output contains no occurrence of the pattern |
| FixSolidityVersion.ChangedIffContains | NextSwapDex/fix_solidity_version.py:18-23 | the text changes, and so is written back, exactly when it contains the pattern |
| FixSolidityVersion.FixPragmaIdempotent | NextSwapDex/fix_solidity_version.py:18-20 | a second pass changes nothing, unconditionally |
| FixSolidityVersion.ShortTextUnchanged | NextSwapDex/fix_solidity_version.py:19 | a text shorter than the pattern is left as it is |
| FixSolidityVersion.NearMissUnchanged | NextSwapDex/fix_solidity_version.py:19 | a 24-character text other than the pattern is left as it is |
| FixSolidityVersion.OtherCharCopied | NextSwapDex/fix_solidity_version.py:18-20 | a character other than `p` is copied, whatever follows |
| FixSolidityVersion.PragmaExamples | NextSwapDex/fix_solidity_version.py:19 | the pinned pragma is rewritten. `^0.8.19`, `=0.8.16` and `=0x8y15` (escaped dots) are left alone |
| FixSolidityVersion.TwoPragmasExample | NextSwapDex/fix_solidity_version.py:18-20 | two pragmas on two lines are both replaced in one pass |
| FixSolidityVersion.FixPragmaInTree | NextSwapDex/fix_solidity_version.py:8-26 | walked `.sol` files get the new text and all other files are untouched. A path is reported, at most once and in walk order, exactly when its file contains the pinned pragma |
| FixSolidityVersion.RerunFixesNothing | NextSwapDex/fix_solidity_version.py:8-26 | running the script twice in a row, the second run writes and reports nothing |

## Left out

- Directory walking (`os.walk`) is modelled as a given sequence of paths. Its order and enumeration are not modelled. The scripts' own guarantees assume the walk yields each path at most once (`Distinct`).
- `os.path.join` and the hard-coded, machine-specific root directories are left out. The `.sol` test is applied to the whole path string, which gives the same answer as testing the file name.
- File reading and writing are modelled as map reads and updates. Open or permission errors and UTF-8 decoding failures are not modelled: there is no error path.
- Characters are Dafny `char`s. The UTF-8 encoding of the files is not modelled.
- Python's text-mode newline translation (`\r\n` read as `\n`) is not modelled. Texts are compared and written exactly as given.
- The console lines (`Fixed …`, `Updated: …`, `Done!`) are modelled only as the list of reported paths, in the order printed.
- The `re` module in general is left out. Each of the two fixed patterns is a hand-written matcher, and the character classes are ASCII ranges, as in the patterns.
