# consistency.py in Dafny

This project models `consistency.py`, a detector of terms that a text spells in more than one way. Examples are "Gradient Descent" against "gradient descent", or "machine-learning" against "machine learning". The model starts from the tokenizer's output, a `seq<string>`, and follows the code in three parts.

- **`strip_common_fixes`** is the method `Consistency.StripCommonFixes`. It has the source's two `while` loops. The first drops equal leading tokens, the second equal trailing tokens. It is proved against the function `StripFixes`, and the lemmas prove the properties of that function.
- **`lower_case`** is the function `Consistency.LowerCase`. If a string splits into exactly one word, its first character is lower-cased. Any other string comes back unchanged.
- **`consistency`** is split into its two phases.
  - Phase 1 is `Consistency.BuildGroups`. Its inner loop is `AddAll`. Every window of 1 to 9 tokens gets a canonical key (`Key`): the lower-cased tokens joined with nothing between them, stripped of `,. `, with `-` removed. The window's surface form (`Surface`) goes into the group for that key: the tokens joined by spaces, stripped of `,. `. The `defaultdict(set)` is a `map<string, seq<string>>`. Each group is a duplicate-free sequence in the order its forms were first added. Both methods are proved equal to the function `Groups1`, which is `Collect` over the window entries.
  - Phase 2 is `Consistency.PruneGroups`, with `Redundant` for the inner loop. A key is deleted if its group has fewer than two forms. It is also deleted if, for some consecutive pair, applying `LowerCase`, `split`, `StripCommonFixes` and a rejoin with spaces changes the pair. The method is proved equal to the function `Prune`.

The Python 2 `str` built-ins the code relies on live in module `Text`: `lower`, `split()`, `join`, `strip(chars)` and `replace("-", "")`. In Python 2 a `str` is a byte string. So `lower` maps only `A`–`Z`, and `split()` breaks on space, `\t`, `\n`, `\r`, `\v` and `\f`; the model does exactly that.

Three things the code does not do, and the model does not either:
- it does not split the text into sentences: windows run over the whole token list;
- it does not filter forms by the capitalization of neighbouring tokens;
- it does not compare forms before `lower_case`: phase 2 lower-cases a lone word before stripping, so two one-word forms that differ only in the case of their first letter make a group that is deleted.

## Model

| member | source | states |
|---|---|---|
| Text.LowerChar | consistency.py:32 | `lower()` on one character leaves no capital, keeps white space as white space, and changes exactly the capitals |
| Text.Lower | consistency.py:50 | `lower()` keeps the length and maps every character through `LowerChar` |
| Text.LowerIs | consistency.py:50 | a string whose characters each lower-case to those of `t` lower-cases to `t` |
| Text.LowerNoUpper | consistency.py:50 | a lower-cased string holds no capital letter |
| Text.LowerAppend | consistency.py:50 | lower-casing distributes over concatenation |
| Text.JoinAppend | consistency.py:50-51 | `Join` (`sep.join`) of two non-empty lists in a row is their joins with one separator between them |
| Text.JoinFirst | consistency.py:51 | a join whose first piece is non-empty starts with that piece's first character |
| Text.JoinLast | consistency.py:51 | a join whose last piece is non-empty ends with that piece's last character |
| Text.JoinTwo | consistency.py:50-51 | joining two pieces puts the separator between them once |
| Text.LowerEach | consistency.py:50 | the per-token lower-casing keeps the count and lower-cases every token |
| Text.LowerJoin | consistency.py:50 | lower-casing each token and then concatenating equals lower-casing the concatenation |
| Text.WordLength | consistency.py:31 | the first word's length: every character before it is non-space, and it ends at a space or at the end |
| Text.Words | consistency.py:31 | `split()` yields only non-empty pieces without white space |
| Text.WordLengthAppend | consistency.py:31 | a space-free prefix extends the leading word by its own length |
| Text.WordsOfWord | consistency.py:31 | a single space-free word splits into itself |
| Text.WordsJoin | consistency.py:58-59 | splitting a single-space join of words gives those words back |
| Text.WordsReplaceFirst | consistency.py:31-32 | replacing a non-space first character by a non-space character changes only the first character of the first word |
| Text.TrimLeftSpec | consistency.py:50-51 | left stripping keeps a suffix, drops only characters of the set, and stops at a character outside it |
| Text.TrimRightSpec | consistency.py:50-51 | right stripping keeps a prefix, drops only characters of the set, and stops at a character outside it |
| Text.StripShape | consistency.py:50-51 | `strip` leaves a slice of the input with no stripped character at either end |
| Text.StripNothing | consistency.py:50-51 | `strip` leaves a string alone when neither end is in the set |
| Text.StripMembers | consistency.py:50-51 | every character `strip` keeps comes from the input |
| Text.TrimLeftAppend | consistency.py:50-51 | left stripping stays inside a first part that keeps some character |
| Text.TrimRightAppend | consistency.py:50-51 | right stripping stays inside a last part that keeps some character |
| Text.StripAround | consistency.py:50-51 | if the first and last parts each keep some character, stripping `u + m + v` trims only `u`'s front and `v`'s back |
| Text.DeleteSpec | consistency.py:50 | `replace("-", "")` leaves no hyphen, changes nothing in a hyphen-free string, and adds no character |
| Text.DeleteAppend | consistency.py:50 | hyphen removal distributes over concatenation |
| Text.TrimLeft | consistency.py:50-51 | `lstrip(cs)`, the left half of `strip`; its properties are stated by `TrimLeftSpec` and `TrimLeftAppend` |
| Text.TrimRight | consistency.py:50-51 | `rstrip(cs)`, the right half of `strip`; its properties are stated by `TrimRightSpec` and `TrimRightAppend` |
| Text.Strip | consistency.py:50-51 | `strip(cs)`; its properties are stated by `StripShape`, `StripNothing`, `StripMembers` and `StripAround` |
| Text.Delete | consistency.py:50 | `replace("-", "")`; its properties are stated by `DeleteSpec` and `DeleteAppend` |
| Consistency.CommonPrefixLength | consistency.py:15-17 | the number of leading tokens the first loop deletes is at most each list's length |
| Consistency.CommonPrefixSpec | consistency.py:15-17 | the lists agree on that many leading tokens and differ at the next one, if both have one |
| Consistency.CommonSuffixLength | consistency.py:18-20 | the number of trailing tokens the second loop deletes is at most each list's length |
| Consistency.CommonSuffixSpec | consistency.py:18-20 | the lists agree on that many trailing tokens and differ at the one before, if both have one |
| Consistency.StripFixes | consistency.py:13-21 | what `strip_common_fixes` returns; `StripFixesParts`, `StripFixesEnds`, `StripFixesUnchanged`, `StripFixesIdempotent` and `StripFixesExample` state its properties |
| Consistency.StripCommonFixes | consistency.py:7-21 | the two loops over the copies return exactly the two halves of `StripFixes(a, b)` |
| Consistency.StripFixesSplit | consistency.py:15-21 | the result cuts the common prefix first, then the common suffix of what remains |
| Consistency.StripFixesExample | consistency.py:9-11 | the doctest: `of machine learning tasks` against `of machine-learning tasks` gives `([machine, learning], [machine-learning])` |
| Consistency.StripFixesShape | consistency.py:13-21 | each result is one slice of its input, cut at the same offsets from the front and from the back |
| Consistency.StripFixesCommon | consistency.py:15-20 | what is cut off is common to both lists: the longest common prefix, then a common suffix |
| Consistency.StripFixesParts | consistency.py:13-21 | `a == p + x + s` and `b == p + y + s` for one common prefix `p` and one common suffix `s` |
| Consistency.Reassemble | consistency.py:13-21 | lists that agree on their first `k` and last `m` elements are that prefix, their own middle and that suffix |
| Consistency.StripFixesSuffix | consistency.py:18-20 | the trailing run removed after the prefix is cut is common to both lists |
| Consistency.StripFixesEnds | consistency.py:15-20 | after stripping, one side is empty or the sides differ at both their first and their last token |
| Consistency.StripFixesUnchanged | consistency.py:15-21 | stripping changes nothing exactly when the lists already differ at both ends (both directions) |
| Consistency.StripFixesIdempotent | consistency.py:15-21 | stripping its own output again changes nothing |
| Consistency.StripFixesSame | consistency.py:15-21 | two equal lists strip to two empty lists |
| Consistency.PrefixOfItself | consistency.py:15-17 | a list shares all of itself as common prefix with itself |
| Consistency.LowerCase | consistency.py:24-34 | `lower_case` keeps the length |
| Consistency.LowerCaseFixed | consistency.py:31-34 | `lower_case` changes its input exactly when the input is one word that starts with a capital (both directions) |
| Consistency.LowerCaseWords | consistency.py:31-34 | `lower_case` keeps the number of words |
| Consistency.LowerCaseIdempotent | consistency.py:31-34 | applying `lower_case` twice is applying it once |
| Consistency.LowerCaseExampleWord | consistency.py:26-27 | the doctest: `Apple` gives `apple` |
| Consistency.LowerCaseExamplePhrase | consistency.py:28-29 | the doctest: `Batch Gradient` is unchanged |
| Consistency.Key | consistency.py:50 | the canonical key of a window; `KeyChars`, `KeyEnds`, `KeyIgnoresCaseAndBoundaries`, `KeyIgnoresCase`, `KeyIgnoresBoundaries` and `KeyHyphenated` state its properties |
| Consistency.Surface | consistency.py:51 | the surface form of a window; `SurfaceShape` and `SurfaceOfWords` state its properties |
| Consistency.SurfaceShape | consistency.py:51 | a surface form is a slice of the space-joined window with no `,`, `.` or space at either end |
| Consistency.SurfaceOfWords | consistency.py:51 | a window of words that neither starts nor ends with `,` or `.` has the space-joined window as surface form, and `split()` gives the window back |
| Consistency.KeyIsCanon | consistency.py:50 | a key depends on a window only through the concatenation of its tokens |
| Consistency.KeyChars | consistency.py:50 | a key holds no hyphen and no capital letter |
| Consistency.CanonChars | consistency.py:50 | the canonical form of any text holds no hyphen and no capital letter |
| Consistency.KeyEnds | consistency.py:50 | a key of a hyphen-free window neither starts nor ends with `,`, `.` or a space |
| Consistency.CanonEnds | consistency.py:50 | the canonical form of hyphen-free text neither starts nor ends with `,`, `.` or a space |
| Consistency.KeyEndsNeedsNoHyphen | consistency.py:50 | ends can survive when a hyphen is present, because stripping comes before hyphen removal: the window `["a,-"]` has key `a,` |
| Consistency.KeyIgnoresCase | consistency.py:50 | windows whose tokens agree up to case have the same key |
| Consistency.KeyIgnoresBoundaries | consistency.py:50 | windows whose tokens concatenate to the same text have the same key, however the text is split |
| Consistency.KeyIgnoresCaseAndBoundaries | consistency.py:50 | windows whose concatenations agree up to case have the same key, whatever the case and the token boundaries |
| Consistency.HasKeptLower | consistency.py:50 | lower-casing keeps any character that stripping `,. ` would keep |
| Consistency.CanonAround | consistency.py:50 | for `u + m + v` whose outer parts each keep something, the key strips only the outer ends |
| Consistency.CanonIgnoresHyphen | consistency.py:50 | a hyphen between two parts that each keep a character does not change the key |
| Consistency.DeleteHyphen | consistency.py:50 | hyphen removal makes `x + "-" + y` and `x + y` the same |
| Consistency.KeyExampleCapitals | consistency.py:50 | the window `Gradient Descent` has key `gradientdescent` |
| Consistency.KeyExampleHyphen | consistency.py:50 | `Gradient-Descent` as one token has the key of `Gradient Descent` as two |
| Consistency.KeyHyphenated | consistency.py:50 | one hyphenated token `a-b` has the key of `a` and `b` as separate tokens, provided `a` and `b` each hold some character other than `,`, `.` and space |
| Consistency.KeyHyphenatedNeedsKept | consistency.py:50 | that proviso is needed: `",- x"` has key `" x"`, while the window `",", " x"` has key `"x"` |
| Consistency.KeyOfCommaHyphen | consistency.py:50 | the token `",- x"` has key `" x"`: stripping stops at the hyphen, and the space behind it survives |
| Consistency.KeyOfCommaSpace | consistency.py:50 | the window `",", " x"` has key `"x"` |
| Consistency.KeyOfWords | consistency.py:50 | a two-token window whose lower-cased tokens are plain letters has the concatenation of those as key |
| Consistency.JoinLowered | consistency.py:50 | the lower-cased tokens of a two-token window concatenate to the two lower-cased strings |
| Consistency.LettersOnly | consistency.py:50 | text made of letters holds no hyphen |
| Consistency.NGrams | consistency.py:49 | `ingrams(tokens, n)` as a sliding window (first window, then the windows of the list shifted by one) has `len(tokens) - n + 1` windows, none if `n` exceeds the length |
| Consistency.NGramsSpec | consistency.py:49 | the `i`-th window of `ingrams(tokens, n)` is the `n` tokens starting at position `i` |
| Consistency.NGramsShift | consistency.py:49 | past the first window, the windows are those of the list shifted by one token |
| Consistency.WindowsBelowSpec | consistency.py:48-49 | the windows phase 1 visits for lengths below `n` are exactly the full runs of 1 to `n - 1` tokens |
| Consistency.Add | consistency.py:52 | `mappings[norm].add(source)` on a `defaultdict(set)`; `AddSpec` and `AddStep` state its properties |
| Consistency.AddSpec | consistency.py:52 | `mappings[norm].add(source)` adds the key if it is missing and puts the form in its group. It leaves other groups alone and keeps groups non-empty and duplicate-free |
| Consistency.AddStep | consistency.py:46-52 | the `defaultdict` insertion, creating the empty group and then adding the form if it is new, computes `Add` |
| Consistency.EntriesAppend | consistency.py:48-52 | the entries (`Entries`) of two lists of windows in a row are the entries of each in a row: one (key, surface form) entry per window, in window order |
| Consistency.EntriesSnoc | consistency.py:48-52 | one more window adds its entry at the end |
| Consistency.CollectSnoc | consistency.py:52 | collecting one more entry is one more `Add` |
| Consistency.CollectWellFormed | consistency.py:46-52 | every group collected is non-empty and holds each form once |
| Consistency.CollectKeys | consistency.py:46-52 | the groups have a key exactly for the key of some entry |
| Consistency.CollectForms | consistency.py:46-52 | a form is in a key's group exactly when some entry pairs it with that key |
| Consistency.CollectSpec | consistency.py:46-52 | the three properties of collecting together |
| Consistency.InsertStep | consistency.py:49-52 | one turn of the inner loop keeps the groups equal to collecting the entries seen so far |
| Consistency.EntriesNext | consistency.py:49-52 | the entries seen so far grow by the entry of the next window |
| Consistency.AddAll | consistency.py:49-52 | one pass over `ingrams(tokens, n)` adds the entries of those windows, in order, to the groups built so far |
| Consistency.Groups1 | consistency.py:46-52 | the groups phase 1 builds; `Groups1Spec` states their coverage and `BuildGroups` computes them |
| Consistency.BuildGroups | consistency.py:46-52 | phase 1 returns exactly `Groups1(tokens)`, collecting the windows of lengths 1 through 9 |
| Consistency.Groups1Spec | consistency.py:46-52 | every full window of 1 to 9 tokens has its surface form in its key's group. No other form is entered, and none twice |
| Consistency.PairStable | consistency.py:57-60 | the test of one consecutive pair; `PairStableIff` characterises it in both directions |
| Consistency.Kept | consistency.py:56-62 | a group survives: two or more forms and every consecutive pair passing; `Redundant` computes its negation |
| Consistency.Prune | consistency.py:55-64 | what phase 2 leaves; `PruneSpec` and `PruneIdempotent` state its properties and `PruneGroups` computes it |
| Consistency.Redundant | consistency.py:56-64 | a group is deleted exactly when it has fewer than two forms or some consecutive pair changes under the pair test |
| Consistency.PruneGroups | consistency.py:55-64 | phase 2, over the keys in any order, returns exactly `Prune(groups)` |
| Consistency.PruneSpec | consistency.py:55-64 | filtering adds no key and changes no surviving group. Each survivor has at least two distinct forms, and a key survives exactly when its group passes |
| Consistency.PruneIdempotent | consistency.py:55-64 | filtering twice is filtering once |
| Consistency.PairStableIff | consistency.py:57-60 | a pair passes exactly when `lower_case` leaves both alone, both are single-space joins of their words, and their word lists differ at both ends (both directions) |
| Consistency.PairStableOnlyIf | consistency.py:57-60 | the forward direction of `PairStableIff` |
| Consistency.StableFirst | consistency.py:57-60 | a passing pair's first form is untouched by `lower_case` and by stripping, and is the join of its words |
| Consistency.StableSecond | consistency.py:57-60 | a passing pair's second form is untouched by `lower_case` and by stripping, and is the join of its words |
| Consistency.StableEnds | consistency.py:57-60 | a passing pair's word lists differ at both ends |
| Consistency.StableSide | consistency.py:57-60 | a slice of the words of `lower_case(a)` that rejoins to `a` is all of them, and `lower_case` leaves `a` alone |
| Consistency.CaseOnlyPairUnstable | consistency.py:53-62 | two different forms that agree after `lower_case` never pass, so their two-form group is deleted |
| Consistency.HadoopGroupDeleted | consistency.py:53-54 | the group `["Hadoop", "hadoop"]` is deleted |
| Consistency.MultiWordPairStable | consistency.py:57-60 | forms of two or more words, single-space joined, pass when their first words differ and their last words differ |
| Consistency.TwoWordGroupKept | consistency.py:57-62 | a group of two two-word forms that differ in both words is kept, in either order |
| Consistency.GradientDescentGroupKept | consistency.py:39-42 | the doctest's surviving group, `gradient descent` with `Gradient Descent`, is kept in either enumeration order |
| Consistency.Detect | consistency.py:46-65 | what `consistency` returns; `DetectSpec` states its properties and `Consistency` computes it |
| Consistency.Consistency | consistency.py:37-65 | `consistency`, from the token list on, returns exactly `Detect(tokens)`, which is phase 2 applied to phase 1 |
| Consistency.DetectSpec | consistency.py:46-65 | every reported key comes from phase 1 with its group unchanged, at least two distinct forms, and every consecutive pair passing. Every form is the surface form of a window with that key, and every phase-1 group that passes is reported |

## Left out

- The tokenizer (consistency.py:3, 44-45) is a call into NLTK. The model takes its output, the token list, as input.
- `main` (consistency.py:73-83) reads a file named on the command line, sorts the keys and prints. It is all I/O and reporting, and it is not modelled.
- `_test` (consistency.py:68-70) only runs the doctests. Those doctests are stated as lemmas instead: `StripFixesExample`, `LowerCaseExampleWord`, `LowerCaseExamplePhrase` and `GradientDescentGroupKept`.
- The full doctest of `consistency` (consistency.py:39-42) needs the Treebank tokenizer's output, so it is not reproduced end to end. The model proves the part that does not depend on the tokenizer: the surviving group is kept in either order (`GradientDescentGroupKept`), and the key of `Gradient Descent` is `gradientdescent` (`KeyExampleCapitals`).
- CPython's set iteration order, which depends on string hashes, is not modelled. A group lists its forms in the order they were first added, and `Redundant` tests consecutive pairs of that order. CPython may enumerate a set in another order, test other pairs, and so keep or drop a group differently. `PruneGroups` handles the keys in an arbitrary order, and its result does not depend on that order.
- Python's in-place `del x[0]` and `del x[-1]` on the copied lists become reassignments of `seq` values. Because the model's lists are values, a caller's lists are never modified, as the copies at consistency.py:13-14 intend.
- Only Python 2 byte-string semantics are modelled. Unicode `lower()` and `split()` are not.
- KeyEnds: proved only for windows without `-`. Stripping `,. ` happens before the hyphens are removed, so a hyphen at an end can shield a `,`, `.` or space (`KeyEndsNeedsNoHyphen`: `["a,-"]` has key `a,`).
- CanonIgnoresHyphen: proved only when both sides of the hyphen keep some character other than `,`, `.` and space. Otherwise stripping can act differently once the hyphen is gone.
- KeyHyphenated: proved only when both halves keep some character other than `,`, `.` and space. Without that, a hyphen can stop the stripping early: `KeyHyphenatedNeedsKept` shows `",- x"` keys to `" x"` while `",", " x"` keys to `"x"`.
- KeyIgnoresCase: stated for windows of the same length whose tokens agree up to case, token by token. `KeyIgnoresCaseAndBoundaries` covers case and boundary changes together.
