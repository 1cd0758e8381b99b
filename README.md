# A verified model of the `Bits` codec, the `utils` helpers and `cleanup_md`

This project models, in Dafny, three parts of a small Python utility package.

- **The `Bits` integer type** (`utils.py`). It sets and clears bits, applies a
  `1`/`0`/skip mask, reads flags, and composes flags into a number. It also
  extracts and packs bit fields laid out by a digit mask such as `"--11 1000"`,
  with a separator character that is ignored.
- **Helpers from `utils/utils.py`**:
  - hexadecimal and binary renderings of byte strings (`bytewise`, `bytewise2`, `bitwise`);
  - the `isdunder`/`issunder` name tests;
  - the self-clearing `Disposable` descriptor;
  - the `spy` iterator with its lookahead branch;
  - `Tree`, which renders a node tree with box-drawing markers and builds one bottom-up from parent links.
- **`cleanup_md`** (`exps/readme_updater.py`). It turns a docstring into
  Markdown, fencing doctest lines as Python code.

How each kind of source code becomes Dafny:

- **Python integers** are `nat`: the model takes `Bits` values as non-negative.
- **Bitwise operators** are defined bit by bit in module `BitOps`. The module
  proves them against arithmetic: `>>` is division and `& (2**w - 1)` is `% 2**w`.
- **Pure code** (expressions, `reduce`, comprehensions, recursion) becomes
  functions, with lemmas about them.
- **Loops** become methods with loop invariants: `mask`, `extract`, `extract2`,
  `pack`, the `build` loop and climb, and the `cleanup_md` loop. Each method is
  proved against a specification function, and the properties the source
  promises are proved about that function.
- **Objects whose fields change** become classes: `Disposable` and `spy`.

Modules:

| file | module | models |
|---|---|---|
| `wrappers.dfy` | `Wrappers` | `Option`, `Result` |
| `bitops.dfy` | `BitOps` | bitwise operators on `nat` |
| `masks.dfy` | `Masks` | the mask grammar: separator removal, `max` of digits, `groupby`, `re.split` on a marker run |
| `bits.dfy` | `Bits` | `Bits.set` … `Bits.pack` |
| `text.dfy` | `Text` | `str.split`/`str.join`, `str.strip`, `str.replace` |
| `octets.dfy` | `Octets` | `bytewise`, `bytewise2`, `bitwise`, and `bytes.fromhex` as the inverse |
| `names.dfy` | `Names` | `isdunder`, `issunder` |
| `disposable.dfy` | `Disposables` | `Disposable` |
| `spy.dfy` | `Spies` | `spy` |
| `tree.dfy` | `Trees` | `Tree.Node`, `marker_styles`, `Tree.render`, `Tree.build` |
| `readme.dfy` | `ReadmeUpdater` | `iscode`, `cleanup_md` |

## Model

| member | source | states |
|---|---|---|
| Bits.SetBits | utils.py:22-37 | after `set(*positions)`, bit i is set exactly when it was set before or i is one of the positions |
| Bits.ClearBits | utils.py:39-54 | after `clear(*positions)`, bit i is set exactly when it was set before and i is none of the positions |
| Bits.SetIdempotent | utils.py:22-37 | setting the same positions twice changes nothing; setting after clearing equals setting |
| Bits.ClearIdempotent | utils.py:39-54 | clearing twice changes nothing; clearing after setting equals clearing |
| Bits.Mask | utils.py:56-77 | every bit of the result is the mask's marker at that position counted from the right (`1` sets, `0` clears), or the original bit where there is no such marker or it is another character; an empty mask leaves the number unchanged |
| Bits.FlagIsBit | utils.py:79-85 | `flag(pos)` is bit `pos` |
| Bits.Flags | utils.py:87-94 | `flags(n)` has n entries |
| Bits.FlagsAreBits | utils.py:87-94 | entry i of `flags(n)` is bit i |
| Bits.ComposeBits | utils.py:96-104 | bit j of `compose(*flags)` is set exactly when j indexes a true flag |
| Bits.FlagsOfCompose | utils.py:87-104 | `flags` inverts `compose`: `compose(*fs).flags(len(fs)) == fs` |
| Bits.ComposeOfFlags | utils.py:87-104 | `compose(*x.flags(n))` is x reduced modulo 2**n |
| Bits.FieldArith | utils.py:140 | a field read bit by bit equals `x >> pos & (2**w - 1)` |
| Bits.FirstRepeatSpec | utils.py:132-139 | the scan reports no duplicate exactly when no digit labels two runs; a reported marker is a digit labelling two runs |
| Bits.LeastRepeatSpec | utils.py:156-160 | the digit-by-digit search reports the least digit that labels two runs, and none exactly when there is no such digit |
| Bits.RepeatsAgree | utils.py:132-160 | both duplicate searches fail on the same masks |
| Bits.Extract | utils.py:106-141 | `extract` equals the scan specification on the mask without separators: the first repeated digit group is a `ValueError`; otherwise the fields come in digit order, skipping digits that are absent |
| Bits.FillSlots | utils.py:131-140 | the `groupby` loop either stops at the first digit whose group repeats, or fills slot d with the field under digit d's run, for every d up to the largest digit |
| Bits.NoDigitFields | utils.py:127-154 | a mask without digits extracts the empty sequence in both implementations |
| Bits.Extract2 | utils.py:143-162 | `extract2` equals the digit-by-digit specification on the mask without separators |
| Bits.ExtractsAgree | utils.py:106-162 | `extract` and `extract2` succeed on the same masks and then return the same fields; each error names a digit that labels two runs |
| Bits.Truncate | utils.py:199-200 | `nums[i] & (2**w - 1)`, negative values included, lies below 2**w |
| Bits.TruncateIsAnd | utils.py:199-200 | on a non-negative number, the truncation is the bitwise and with the low mask |
| Bits.DigitRunAt | utils.py:193-197 | the digit run covering a bit position is a run of the mask that spans that position |
| Bits.Pack | utils.py:164-206 | `pack` fails exactly when some digit group's index is not below `len(nums)`, and names the first such marker; otherwise every bit under a digit run comes from the truncated number and every other bit is kept |
| Bits.PackNoDigits | utils.py:164-206 | a mask without digits packs nothing and leaves every bit unchanged |
| Bits.ExtractAfterPack | utils.py:143-206 | packing and then extracting through the same mask (distinct digit groups 0..k-1) returns each number truncated to its group's width |
| Bits.PackAfterExtract | utils.py:106-206 | packing the extracted fields back through the same mask gives the original number |
| Bits.PackExtract | utils.py:106-206 | the method composition `pack(mask, *extract(mask))` is the identity |
| Bits.ExtractPack | utils.py:106-206 | the method composition `extract(mask)` after `pack(mask, *nums)` returns the truncated nums |
| Masks.RemoveSep | utils.py:125-126 | `''.join(mask.split(sep))` is never longer than the mask; an empty separator keeps the mask; a one-character separator removes exactly that character |
| Masks.Without | utils.py:125-126 | removing a character keeps every other character's count and drops that one |
| Masks.MaxDigit | utils.py:127-130 | the largest digit marker; none exactly when the mask has no digit |
| Masks.GroupByConcat | utils.py:132-134 | `groupby` groups concatenate back to the mask |
| Masks.GroupsAreRuns | utils.py:132-135 | each `groupby` group is a run with its marker, its size and its right-aligned position `pos` |
| Masks.RunsTile | utils.py:132-135 | runs are non-empty, adjacent runs have different markers, and together they tile the mask from the right end to the left |
| Masks.SplitRuns | utils.py:158 | `re.split` with a captured `(c+)` group yields an odd number of parts |
| Masks.SplitRunsJoin | utils.py:158 | the parts of the split join back to the mask |
| Masks.SplitRunsPieces | utils.py:158 | even parts do not contain the marker; odd parts are non-empty runs of it |
| Masks.SplitRunsAgree | utils.py:158-161 | for a marker with a run: more than three parts exactly when the marker labels two runs; the captured group has the run's width; with one run the text after it has the run's position as length |
| Octets.BytewiseAgree | utils/utils.py:104-141 | `bytewise` and `bytewise2` return the same string or the same error on every input |
| Octets.BytewiseSpec | utils/utils.py:104-126 | untrimmed output is the uppercase octets joined by `sep`. Past the limit: a `ValueError` exactly when limit < 2; otherwise the first limit-2 octets, `..`, the last octet and the optional `(<n> bytes)` |
| Octets.PairsOfHex | utils/utils.py:117 | pairing the characters of the uppercased hex string gives the byte octets |
| Octets.BytewiseFromHex | utils/utils.py:104-119 | `bytes.fromhex` inverts untrimmed `bytewise` output whose separator is whitespace |
| Octets.BinRoundTrip | utils/utils.py:150 | `f"{byte:08b}"` has width binary digits whose value is the byte |
| Octets.BitwiseSpec | utils/utils.py:144-150 | `bitwise` output has the joined length, the 8 characters at each byte's offset are that byte in binary, and `sep` sits between each octet and the next |
| Octets.BitwiseEmpty | utils/utils.py:144-150 | no bytes render as the empty string |
| Names.DunderShape | utils/utils.py:223-227 | `isdunder` holds exactly for names longer than 4 that start and end with `__` and have no third underscore at either end |
| Names.SunderShape | utils/utils.py:230-234 | `issunder` holds exactly for names longer than 2 that start and end with `_` and have no second underscore at either end |
| Names.DunderNotSunder | utils/utils.py:223-234 | no name is both |
| Disposables.Disposable.constructor | utils/utils.py:258-259 | the descriptor starts with the given value |
| Disposables.Disposable.Get | utils/utils.py:261-266 | an access returns the stored value and clears it |
| Disposables.Disposable.Set | utils/utils.py:268-269 | an assignment stores the value |
| Disposables.Lifecycle | utils/utils.py:245-269 | the documented sequence: initial value, then None; after an assignment, the value, then None |
| Spies.Spy.constructor | utils/utils.py:287-289 | a new spy has an empty cache and the whole iterable ahead |
| Spies.Spy.Next | utils/utils.py:294-298 | `__next__` pops the cache's head when the cache is not empty, leaving the source alone, and otherwise takes the source's head; either way it returns the next item of the iterable, and nothing once both are empty |
| Spies.Spy.LookaheadNext | utils/utils.py:300-303 | one lookahead step moves the next source item into the cache and leaves the main branch's pending items unchanged |
| Spies.Session | utils/utils.py:278-284 | the documented session on three items: lookahead gives the first, the main branch the same one, then the lookahead the other two and the main branch the same two, and the lookahead ends exhausted |
| Spies.Interleave | utils/utils.py:272-303 | in any interleaving of the two branches, the main branch yields a prefix of the iterable in order, and the lookahead yields items of the iterable at strictly increasing positions |
| Spies.Drain | utils/utils.py:272-303 | after n lookahead steps, the lookahead saw a prefix of the iterable, and the main branch still yields the whole iterable |
| Trees.StyleMarkers | utils/utils.py:553-558 | exactly `strict`, `smooth` and `indent` are styles, each with four markers of width 4 |
| Trees.Render | utils/utils.py:566-589 | an unknown style is a `ValueError` naming it; an empty tree renders as `empty` |
| Trees.GenerateWalk | utils/utils.py:582-587 | `generate` emits one line per node in pre-order; each line is the ancestors' `line`/`void` indent, then `end` for a last child or `fork` otherwise, then the name |
| Trees.RenderLines | utils/utils.py:582-589 | the rendered lines are the root's name followed by one line per descendant in pre-order |
| Trees.LineWidth | utils/utils.py:585 | a node's line is 4 characters per level of depth plus its name |
| Trees.RenderSplits | utils/utils.py:566-589 | with names free of newlines, splitting the rendered string at newlines gives back exactly the pre-order lines |
| Trees.SortSpec | utils/utils.py:654-655 | sorting by name returns a sorted permutation of the children, and it is stable: the children of each name keep the order they were added in |
| Trees.Build | utils/utils.py:617-657 | an error names two distinct parentless items both reachable from the items. Success: the index holds exactly the items and their ancestors, and only the root lacks a parent. Each node records its own item and name. Each child list holds distinct children of its owner, sorted by name. Every non-root node is in its parent's list when that parent is truthy |
| Trees.Place | utils/utils.py:631-652 | one iteration of the item loop: a skip for an indexed item, the climb's error, or an index that grows, holds the item and keeps the build invariant |
| Trees.Climb | utils/utils.py:636-649 | the climb indexes a chain of ancestors and either ends at an indexed ancestor or at the root, or reports a second parentless item |
| Trees.Ascend | utils/utils.py:637-649 | the `while` loop makes one node per unindexed ancestor, each listing the node below it, until the parent is indexed or missing |
| Trees.AttachStep | utils/utils.py:651-652 | appending the top of the climb to its truthy parent's list settles every node |
| Trees.SortChildren | utils/utils.py:654-655 | every node's child list is replaced by its sorted version and nothing else changes |
| Trees.LostChild | utils/utils.py:651-652 | as written: items 1 and 2 under a falsy parent 0 both get indexed, but 0 does not list both |
| Trees.BuildConnected | utils/utils.py:617-657 | with `is not None`, every indexed non-root item is listed in its parent's children, and the lists hold nothing else |
| ReadmeUpdater.IsCodeShape | exps/readme_updater.py:21-22 | a line is code exactly when it opens with three `>` or three `.`; a code line is neither blank nor indented, and the titled first line is never code |
| ReadmeUpdater.CleanupMd | exps/readme_updater.py:25-63 | the method's output is the specification: the loop's lines, a closing fence if a block is still open, joined by newlines |
| ReadmeUpdater.Advance | exps/readme_updater.py:31-59 | one loop iteration equals the specification step |
| ReadmeUpdater.OpenOrClose | exps/readme_updater.py:38-47 | a fence opens (an empty line, then a `python` fence) before a doctest line outside a block, and closes before unindented prose inside one |
| ReadmeUpdater.Append | exps/readme_updater.py:49-59 | unindented prose after output gets an empty separator line; then the converted line is appended |
| ReadmeUpdater.StepExtends | exps/readme_updater.py:30-59 | an iteration only appends to the output |
| ReadmeUpdater.DropsBlank | exps/readme_updater.py:31-32 | blank lines do not affect the result |
| ReadmeUpdater.RunEmpty | exps/readme_updater.py:30-59 | output is empty exactly when every line is blank |
| ReadmeUpdater.TitleFirst | exps/readme_updater.py:35-36 | the first output line is the first non-blank line as a `####` title |
| ReadmeUpdater.RunFlag | exps/readme_updater.py:39-47 | after a line, a block is open exactly when the line is a doctest line, or a block was open and the line is indented |
| ReadmeUpdater.FlagMeaning | exps/readme_updater.py:39-47 | a block is open at the end exactly when some doctest line is followed only by indented lines |
| ReadmeUpdater.SeparatorBefore | exps/readme_updater.py:50-51 | unindented prose after the first line, outside a block, is preceded by an empty line |
| ReadmeUpdater.FencesRun | exps/readme_updater.py:38-59 | when no docstring line strips to a fence, the fence lines in the output take turns, ```` ```python ```` first; an odd number of them means a block is open |
| ReadmeUpdater.FencesBalanced | exps/readme_updater.py:38-62 | when no docstring line strips to a fence, the output's fence lines after the final close pair up, each ```` ```python ```` followed by its ```` ``` ```` |
| ReadmeUpdater.ConvertFence | exps/readme_updater.py:54-57 | a line is written out as a fence only if the docstring line, stripped, is that same fence |
| ReadmeUpdater.ConvertNoBullet | exps/readme_updater.py:54 | no `•` survives in an emitted line |
| ReadmeUpdater.ConvertStripped | exps/readme_updater.py:57 | a line in a code block has no surrounding whitespace |
| ReadmeUpdater.ConvertIndent | exps/readme_updater.py:57 | outside a block, a 4k-space indent becomes a 2k-space indent |
| Text.JoinSplit | exps/readme_updater.py:26-63 | joining the parts of a split by the same character gives the text back |
| Text.SplitJoin | exps/readme_updater.py:26-63 | splitting a join of parts that do not contain the separator gives the parts back |
| Text.StripSpec | exps/readme_updater.py:31-57 | `strip()` returns the slice between blank ends, with no whitespace at either end; it is empty exactly when the line is blank |
| Text.ReplaceChar | exps/readme_updater.py:54 | replacing one character by another maps each position independently |
| Text.IndentHalved | exps/readme_updater.py:57 | replacing 4-space runs halves a leading indent of 4k spaces |

## Left out

- **I/O.** `update_readme`, `gen_doc` and the other readme functions read modules and files. They are not part of this model. Neither are the rest of `utils/utils.py` and `exps/`.
- **`Tree.convert`** (utils/utils.py:592-615) is not modelled. It builds a tree top-down by calling a user function, and `build` is the bottom-up version that is modelled.
- **Digit tests.** `str.isdecimal` is modelled for the ASCII digits `0`-`9` only; other Unicode decimal characters are out of scope.
- Bits.ComposeBits: flags are `bool`. A truthy non-boolean flag `v` contributes `v << i` in the source, not `1 << i`, which the model does not capture.
- **Negative values.** A `Bits` value is a `nat`. `class Bits(int)` (utils.py:13) also accepts negative integers (two's-complement bit patterns with infinitely many leading ones), and no operation is modelled on those.
- ReadmeUpdater.FencesBalanced: assumes that no docstring line, once stripped, is ```` ``` ```` or ```` ```python ````. Inline backticks are allowed. `ReadmeUpdater.ConvertFence` shows that only such a line can be written out as a fence, and when one is, it can unbalance the fences. `ReadmeUpdater.FencesRun` has the same assumption.
- **Errors.** `TypeError`s from wrong argument types, and non-`int` items in `nums`, are not modelled. A negative bit position (a `ValueError` in Python) is excluded by using `nat`.
- Trees.Build: names the two roots it found in its error. The source's message names `root.value` and `parent_item`, which is always `None` at that point (utils/utils.py:643-644). The model does not model the message text.
- Trees.Build: takes names, parent links and truth values as functions, and hashing as equality. It also takes a ghost finite set of items closed under parent links. Such a set exists for every input with finitely many ancestors, cycles included: each pass of the `while` loop indexes the current parent, so a cycle reaches an indexed item and the climb ends. The set excludes only an infinite chain of distinct ancestors, on which the source's loop does not end.
- Trees.Build: names children by item in `Record.nodes` instead of sharing node objects. Python's nodes are shared by reference, so the two are equal in content. Aliasing itself is not modelled.
- Trees.GenerateWalk: models `i is last` as `i == last`. CPython's identity of small integers makes `is` behave like `==` only below 257 children.
- Trees.Render: follows the code's styles, `strict`, `smooth` and `indent`. The signature's type hint names `empty` instead of `indent`.
- Spies.Spy.LookaheadNext: models one step of the lookahead generator. The generator object, and several lookahead generators interleaving, are not modelled.
- Bits.Extract and Bits.Extract2: can report different digits for the same invalid mask. `extract` names the first repeated group in scan order, and `extract2` names the least digit that repeats: for `"2121"` the first names 2, the second 1. Bits.ExtractsAgree states that both fail on the same masks, not that the digits are equal.
- Disposables.Disposable.Get: does not model the `instance is None` branch (class-level access returns the descriptor itself).

## Findings

| source | as written | input that shows it | evidently intended | confidence | as-written member | corrected member |
|---|---|---|---|---|---|---|
| utils/utils.py:651 | `if parent_item:` tests truthiness, so the top of a climb is not appended to a falsy parent such as `0`, `""` or an empty tuple | items `[1, 2]`, where 0 is the parent of 1 and of 2, and 0 has no parent | `if parent_item is not None:`, so that every child is listed under its parent | medium, not executed | Trees.LostChild | Trees.BuildConnected |
