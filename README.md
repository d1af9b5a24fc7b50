# Random name picker — a Dafny model of the name pool and its controller

The picker is a small browser widget. Users type names into a box (one
name, or several separated by commas), press a spin button, and the tool
draws one name at random from the names not yet drawn, until none are left.
The button then turns into a Reset button that makes every name available
again. A clear button forgets all names.

This project models the part of the program that decides what happens to
the names:

- **`RandomSelector`** (src/modules/RandomSelector.js, and its older copy at
  the top of script.js). It keeps two lists, `originalNames` (every name)
  and `remainingNames` (names not drawn yet). It is modelled as a Dafny
  `class` with those two `seq<string>` fields. Its methods reassign them
  exactly as the JavaScript mutates them. Its object invariant, `Valid()`,
  says that the remaining names are a subsequence of all names. `chooseName`
  takes the random index as a parameter. Its contract therefore covers every
  index `Math.random` could produce.
- **`UIManager`** (src/modules/UIManager.js, and its older copy in
  script.js) without the DOM. It is a class that holds the selector. Its
  methods `HandleAddName`, `HandleClear` and `HandleSpin` change the
  selector as the event handlers do. Its functions `NameList` and
  `SpinButton` give what `updateNameList` and `updateSpinButtonText` render.
  That is one item per name, marked chosen or not, plus the button's label
  and hidden flag.
- The pure rules beneath them, as functions with lemmas:
  - `Text`: `String.prototype.trim`, and `split` on one separator character.
  - `NameInput`: how the typed text becomes a list of names.
  - `Pool`: the list after `addName`, and what a run of draws yields.
  - `View`: the chosen marks and the button.
  - `Seqs`: subsequences, duplicate-freedom, and `splice(i, 1)` as `Remove`.

The main results:

- **Sampling without replacement.** Draws from the pool yield every listed
  name exactly as often as it is listed, empty the pool, and never repeat a
  name from a duplicate-free pool (`Pool.DrainYieldsEachNameOnce`). A
  further draw returns `null`.
- **The invariant.** Every operation keeps the remaining names a
  subsequence of all names.
- **Duplicates.** A name is never listed twice once the list is free of
  duplicates (`Pool.AddedNoDuplicates`, `Pool.AddAllNoDuplicates`).
- **The view.** When no name is listed twice, the number of names marked
  chosen equals the number of draws since the last reset, and a draw marks
  exactly the drawn name. That condition holds for every list the program
  builds: both entry points start from `[]` (src/main.js:5, script.js:186),
  and `addName` skips names already listed. The button reads Reset exactly
  when there are names and all of them are marked.

Later versions of the upstream picker add persistent named groups, local
storage and removing a single name. The files modelled here contain none of
these features.

## Model

| member | source | states |
|---|---|---|
| Selector.RandomSelector.constructor | src/modules/RandomSelector.js:8-11 | the selector starts with a copy of the given names as both lists, so nothing is drawn yet and the invariant holds |
| Selector.RandomSelector.HasNamesRemaining | src/modules/RandomSelector.js:13-15 | true exactly when at least one name remains |
| Selector.RandomSelector.ChooseName | src/modules/RandomSelector.js:17-27 | with no name remaining: returns None and changes nothing. Otherwise: returns the name at the chosen index, removes exactly that entry, leaves the full list alone, and keeps remaining a subsequence of all names |
| Selector.RandomSelector.AddName | src/modules/RandomSelector.js:29-41 | the full list becomes `Pool.Added` of the old one. If it changed, every name is available again; if not, nothing changes |
| Selector.RandomSelector.Reset | src/modules/RandomSelector.js:43-45 | remaining becomes equal to the full list, which is unchanged |
| Selector.RandomSelector.Clear | src/modules/RandomSelector.js:47-50 | both lists become empty |
| Selector.DrawThree | src/modules/RandomSelector.js:17-27 | three draws from three names, with any valid random indices, give the three names as a permutation; a fourth draw gives None |
| Selector.DrawRun | src/modules/RandomSelector.js:17-27 | `chooseName` called once per given index draws exactly the names `Pool.DrawMany` gives and leaves its pool behind. As many draws as names empty the pool and draw each listed name as often as it is listed |
| Selector.ThreeDrawsArePermutation | src/modules/RandomSelector.js:17-27 | three draws, at any valid indices, from three entries yield the three entries as a permutation |
| Selector.ResetTwiceThenClear | src/modules/RandomSelector.js:43-50 | resetting twice gives the same remaining list as resetting once; clear followed by adding "A" lists exactly ["A"] |
| Seqs.Remove | src/modules/RandomSelector.js:26 | `splice(i, 1)`: the result is one shorter, keeps the entries before `i`, shifts the ones after it, and loses exactly one copy of the removed value |
| Seqs.RemoveIsSubsequence | src/modules/RandomSelector.js:26 | removing one entry leaves a subsequence, so a draw keeps the invariant |
| Seqs.SubsequenceNoDuplicates | src/modules/RandomSelector.js:26 | the remaining names of a duplicate-free list are duplicate-free too |
| Pool.Added | src/modules/RandomSelector.js:29-41 | `addName` on the list: the list is unchanged exactly when the trimmed name is empty or already listed; otherwise the trimmed name is appended. Afterwards any non-empty trimmed name is listed |
| Pool.AddedNoDuplicates | src/modules/RandomSelector.js:33-37 | adding a name to a duplicate-free list keeps it duplicate-free |
| Pool.AddedIdempotent | src/modules/RandomSelector.js:33-34 | adding the same name twice is the same as adding it once |
| Pool.AddAll | src/modules/UIManager.js:58 | calling `addName` on each piece in turn keeps the old list as a prefix and adds at most one name per piece |
| Pool.AddAllNoDuplicates | src/modules/UIManager.js:58 | adding several pieces never lists a name twice |
| Pool.AddAllListsEveryPiece | src/modules/UIManager.js:58 | afterwards every non-blank piece is listed, trimmed |
| Pool.AddAllListsOnlyPieces | src/modules/UIManager.js:58 | every newly listed name is one of the trimmed pieces |
| Pool.DrawMany | src/modules/RandomSelector.js:17-27 | a run of draws with valid indices: as many names drawn as draws made; the drawn names and the pool left are together a permutation of the pool |
| Pool.DrawManyFirst | src/modules/RandomSelector.js:19-26 | the first draw of a run takes the entry at the first index, and the rest of the run draws from what is left |
| Pool.DrawManyLeavesSubsequence | src/modules/RandomSelector.js:26 | the pool left after a run of draws is a subsequence of the original pool |
| Pool.DrawManyNoRepeats | src/modules/RandomSelector.js:1-2 | drawing from a duplicate-free pool never yields a name twice |
| Pool.DrainYieldsEachNameOnce | src/modules/RandomSelector.js:1-27 | as many draws as names empty the pool and yield a permutation of it, without repeats when the pool has none |
| Text.Trim | src/modules/RandomSelector.js:31 | `trim()`: the result is no longer than the input and, when not empty, starts and ends with a non-space character. TrimSpec and TrimIsSlice state that it is exactly the slice between the leading and trailing white space |
| Text.TrimStartSpec | src/modules/RandomSelector.js:31 | removing leading white space gives the longest suffix that starts with a non-space character |
| Text.TrimEndSpec | src/modules/RandomSelector.js:31 | removing trailing white space gives the longest prefix that ends with a non-space character |
| Text.TrimSpec | src/modules/RandomSelector.js:31 | the trimmed text is empty exactly when the input is all white space; otherwise it starts and ends with a non-space character |
| Text.TrimIsSlice | src/modules/UIManager.js:47 | the trimmed text is the slice of the input between its leading and trailing white space |
| Text.TrimFixed | src/modules/UIManager.js:54 | text with no white space at either end is its own trim |
| Text.TrimIdempotent | src/modules/UIManager.js:54 | trimming twice is trimming once, so `addName` re-trimming a parsed name changes nothing |
| Text.Split | src/modules/UIManager.js:53 | `split(",")` gives at least one field, and no field contains the separator |
| Text.JoinSplit | src/modules/UIManager.js:53 | joining the fields with the separator gives back the input |
| Text.SplitJoin | src/modules/UIManager.js:53 | splitting joined separator-free fields gives back the fields |
| Text.SplitWithoutSeparator | src/modules/UIManager.js:51-56 | text without the separator is one field |
| NameInput.TrimEach | src/modules/UIManager.js:54 | each field is trimmed, and the number of fields is kept |
| NameInput.DropEmpty | src/modules/UIManager.js:55 | the result is a subsequence of the fields with no empty entry. It holds each non-empty field exactly as often as the fields do |
| NameInput.DropEmptyIsFilter | src/modules/UIManager.js:55 | DropEmpty's contract fixes its result: any subsequence of the fields holding exactly their non-empty entries equals it |
| NameInput.DropEmptyKeepsNonEmpty | src/modules/UIManager.js:55 | every non-empty field is in the result |
| NameInput.SplitNames | src/modules/UIManager.js:51-56 | for trimmed input: without a comma, the input is the one name. With a comma, the names are the trimmed comma fields in order, with exactly the empty ones dropped |
| NameInput.TrimNoNewSeparator | src/modules/UIManager.js:53-54 | trimming a comma-free field leaves it comma-free |
| NameInput.CommaNames | src/modules/UIManager.js:51-55 | with a comma, every name is non-empty, comma-free and already trimmed |
| NameInput.CommaFields | src/modules/UIManager.js:51-55 | with a comma, the names are chosen in order from the trimmed fields, and every non-empty trimmed field is among them |
| NameInput.ParseNames | src/modules/UIManager.js:47-56 | blank input gives no names. Input without a comma gives the trimmed input as one name. Input with a comma gives the trimmed comma fields in order, with exactly the empty ones dropped, each non-empty one kept as often as it occurs. Every name is non-empty and already trimmed |
| View.NameItems | src/modules/UIManager.js:92-104 | one item per listed name, in order, marked chosen exactly when the name is listed but not remaining |
| View.AllChosenWhenExhausted | src/modules/UIManager.js:92-104 | when no name remains, every listed name is marked |
| View.ChosenCountIsDrawCount | src/modules/UIManager.js:92-104 | for duplicate-free names, the number marked chosen is the number drawn since the last reset |
| View.DrawMarksOneName | src/modules/UIManager.js:92-104 | when no name is listed twice, a draw marks the drawn name, which is listed, and leaves every other mark as it was |
| View.ExhaustedWhenAllChosen | src/modules/UIManager.js:98-100 | the pool is exhausted exactly when every listed name is marked chosen |
| View.SpinButtonFor | src/modules/UIManager.js:106-121 | the button is hidden exactly when no name is listed, and shows one of the two labels |
| View.ResetLabelWhenAllChosen | src/modules/UIManager.js:113-120 | with distinct labels, the button reads Reset exactly when names are listed and all are marked chosen |
| Controller.UIManager.constructor | src/modules/UIManager.js:6-9 | the controller works on the selector it is given |
| Controller.UIManager.HandleAddName | src/modules/UIManager.js:46-63 | the full list becomes `Pool.AddAll` of the parsed names. Every name is available again when a name was added; otherwise nothing changes. The invariant holds throughout the loop |
| Controller.UIManager.AddEach | src/modules/UIManager.js:58 | `addName` on each name in turn: the full list becomes `Pool.AddAll` of the names, and every name is available again exactly when the list changed |
| Controller.UIManager.HandleClear | src/modules/UIManager.js:65-69 | both lists become empty |
| Controller.UIManager.HandleSpin | src/modules/UIManager.js:71-86 | on an exhausted pool, every name is available again and nothing is drawn; otherwise exactly one name is drawn, at the given index |
| Controller.UIManager.NameList | src/modules/UIManager.js:92-104 | one item per listed name, in order, marked chosen exactly when the name is not among the remaining names; with no duplicates, as many are marked chosen as have been drawn |
| Controller.UIManager.SpinButton | src/modules/UIManager.js:106-121 | hidden exactly when no name is listed. Reads "Reset" exactly when names are listed and all are marked chosen; otherwise reads "Play 🎲" |
| LegacyScript.RandomSelector.constructor | script.js:8-11 | the selector starts with a copy of the given names as both lists |
| LegacyScript.RandomSelector.HasNamesRemaining | script.js:13-15 | true exactly when at least one name remains |
| LegacyScript.RandomSelector.ChooseName | script.js:17-27 | None with nothing changed on an exhausted pool. Otherwise the name at the index, removed from remaining, with the full list unchanged |
| LegacyScript.RandomSelector.AddName | script.js:29-41 | ignores blank or already listed names; otherwise appends the trimmed name and makes every name available again |
| LegacyScript.RandomSelector.Reset | script.js:43-45 | remaining becomes equal to the full list |
| LegacyScript.UIManager.constructor | script.js:84-87 | the controller works on the selector it is given |
| LegacyScript.UIManager.HandleAddName | script.js:119-135 | same parsing and adding as the module version |
| LegacyScript.UIManager.AddEach | script.js:130 | `addName` on each name in turn, as in the module version |
| LegacyScript.UIManager.HandleSpin | script.js:137-152 | resets an exhausted pool without drawing; otherwise draws exactly one name |
| LegacyScript.UIManager.NameList | script.js:154-166 | one item per listed name, in order, marked chosen exactly when the name is not among the remaining names; with no duplicates, as many are marked chosen as have been drawn |
| LegacyScript.UIManager.SpinButton | script.js:168-183 | hidden exactly when no name is listed. Reads "Reset ♻️" exactly when names are listed and all are marked chosen; otherwise reads "Spin 🎲" |

## Left out

- `SelectionAnimator` (src/modules/SelectionAnimator.js, script.js:48-77) is not modelled. It is timed display: `setInterval` and `setTimeout`, with floating-point tick intervals.
- A spin is one atomic step. In the program, a second click during the animation starts a second timer. Both timers then call `chooseName`, and the second may get `null` from a pool the first emptied. The model does not capture this interleaving.
- The animator is handed the same array that `chooseName` later splices. Sequences in the model are values, so this sharing is not modelled.
- `Math.random` is replaced by an index parameter whose range is a precondition. Probability and uniformity are not modelled.
- The DOM is left out: element lookup, event listeners, the Enter key, clearing the input box, and the result text (`${chosenName} 🎉` in the module version, `🌟 ${chosenName} 🌟` in script.js). Only the derived values are kept: the name list, the chosen marks, the button label and the hidden flag.
- src/main.js is wiring that builds the three objects. It is not part of this model.
- Persistent named groups, local storage and `removeName` are not in the modelled code.
- Characters are Unicode scalar values, while JavaScript strings are UTF-16 code units. This does not affect trimming or splitting on `,`, which involve no surrogate pairs.
- The white-space set of `trim` is fixed to ECMAScript's WhiteSpace and LineTerminator characters, including the Unicode space separators of category Zs as of Unicode 15.
- Selector.RandomSelector.constructor: the constructor neither trims nor removes duplicates from its argument, as in the source. So `NoDuplicates` is not part of `Valid()`. It is proved preserved by adding names instead.
