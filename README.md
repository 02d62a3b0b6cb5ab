# Operator list filters

A Dafny model of the filter state of the operator list page of the
sanity-gone-zero game-reference site (`src/pages/operators/index.page.tsx`).
The page keeps five pieces of state: the selected profession (class), the
selected sub-profession (branch), the "guide available" toggle, and whether
the class menu and the sub-class menu are open. Click handlers and a URL-hash
callback update that state. From it the page derives the `filterSettings`
record it passes to the operator list, the list of branches in the sub-class
menu, and whether the Reset button is shown and the sub-class button is enabled.

Layout:

- `option.dfy` (`Optional`): `Option`, the outcome of a regular-expression match,
  and `Nullable`, a JavaScript value that is `null`, `undefined` or a string.
- `words.dfy` (`Words`): JavaScript's `split` with a one-character separator, plus
  `map` and `join`, with their round-trip lemmas.
- `hash_parser.dfy` (`HashParser`): the regular expression `^#([^-]*?)(?:-(.*?))?$`,
  written as a split at the first `-` and proved equal to a declarative description
  of what it matches. Also the title-cased sub-class words.
- `filters.dfy` (`Filters`): the state as a value. One function per handler, the
  derived values, the lemmas stating each handler's effect, and an invariant the
  page's clicks keep: the selected sub-class is one that the sub-class menu lists.
- `operators_page.dfy` (`OperatorsPage`): class `OperatorFilters` with the five
  fields. Each handler is a method whose postcondition says the new state is the
  matching `Filters` function applied to the old state.

The page imports `classToProfession`, `toTitleCase` and `subclassToSubProfessionId`
from the site's globals module. That module is not part of this model. These
helpers are the fields of a `Globals` parameter, and nothing is assumed about
them.

A helper may return `null`, `undefined` or a string for a name it does not know.
So the profession and the sub-class are `Nullable`, and the two absent values
stay distinct.
- `handleClassClick` compares with `!==`. So clicking "All Classes" (`null`) after a
  hash left the profession `undefined` still clears the sub-class
  (`AllClassesAfterUnknownHashClass`).
- The Reset button and the sub-class button test with the loose `!= null` /
  `== null`, so `undefined` counts as "nothing selected".
- The branch menu compares with `===` against string professions. So neither
  `null` nor `undefined` lists a branch.

The page keeps a selected sub-class inside the selected class only for the clicks
it offers itself (`OfferedRunKeepsConsistent`).
- `hashChangeCallback` sets the profession and the sub-class independently, so a
  hash can select a sub-class of a different class.
- `handleSubclassFilter` keeps the property only if the pair it is given is a branch
  of the table.

## Model

| member | source | states |
|---|---|---|
| `Words.Split` | src/pages/operators/index.page.tsx:244 | `split("_")` yields one more piece than there are separators, and no piece contains the separator |
| `Words.JoinSplitIsReplace` | src/pages/operators/index.page.tsx:244-246 | splitting on `c` and joining with `d` is the string with each `c` replaced by `d`, position by position |
| `Words.JoinSplit` | src/pages/operators/index.page.tsx:244-246 | joining the pieces back with the separator gives the original string |
| `Words.Join` | src/pages/operators/index.page.tsx:246 | `join(sep)`: `[]` joins to `""`, one word to itself; tied to `Split` by `JoinSplit` and `SplitJoin` |
| `Words.Map` | src/pages/operators/index.page.tsx:245 | `map(f)`: word k of the result is `f` of word k |
| `Words.SplitJoin` | src/pages/operators/index.page.tsx:244-246 | splitting a join of separator-free words gives back exactly those words |
| `HashParser.FirstIndex` | src/pages/operators/index.page.tsx:239 | the position of the first `-`, or the length if there is none: nothing before it is a `-` |
| `HashParser.Exec` | src/pages/operators/index.page.tsx:239 | any match it returns is a match of the regular expression: `#`, a `-`-free group 1, then the end, or `-` and a group 2 free of line terminators |
| `HashParser.ExecComplete` | src/pages/operators/index.page.tsx:239 | every match of the regular expression is the one `Exec` returns, so the match is unique and `Exec` fails only when there is no match |
| `HashParser.ParseHash` | src/pages/operators/index.page.tsx:239-248 | the class part never contains `-` and is the text right after `#`; a non-empty sub-class part needs a matched `-` group |
| `HashParser.ParseHashWithSubclass` | src/pages/operators/index.page.tsx:239-248 | for `#cls-rest`, the class part is `cls` and the sub-class part is the title-cased words of `rest` joined by spaces, or `""` when `rest` is empty |
| `HashParser.ParseHashClassOnly` | src/pages/operators/index.page.tsx:239-248 | for `#cls` with no `-`, the parts are `cls` and `""` |
| `HashParser.ParseHashCases` | src/pages/operators/index.page.tsx:239-248 | every hash is one of the three cases above: split the text after `#` at its first `-`, and the parts are the class-only, class-and-sub-class or unmatched result accordingly |
| `HashParser.ParseHashUnmatched` | src/pages/operators/index.page.tsx:239-248 | a hash not starting with `#`, or one with a line terminator after its first `-`, parses to two empty parts |
| `HashParser.SubclassWordsReplaceUnderscores` | src/pages/operators/index.page.tsx:243-246 | when title-casing leaves every `_`-piece unchanged, the sub-class part is the text after `-` with each `_` turned into a space |
| `HashParser.SubclassWordsRecoverable` | src/pages/operators/index.page.tsx:243-246 | when title-casing puts no space into any `_`-piece, splitting the sub-class part on spaces gives back the title-cased `_`-pieces, in order |
| `HashParser.SubclassWords` | src/pages/operators/index.page.tsx:243-246 | the `split("_").map(toTitleCase).join(" ")` chain; its meaning is stated by `SubclassWordsReplaceUnderscores` and `SubclassWordsRecoverable` |
| `Filters.BranchMenu` | src/pages/operators/index.page.tsx:428-432 | a branch is listed iff it is in the table and its class's profession is the selected one |
| `Filters.BranchMenuInTableOrder` | src/pages/operators/index.page.tsx:428-432 | menu entry k is table entry `MenuIndices[k]`; the indices strictly increase and are exactly the positions of the matching branches |
| `Filters.MenuIndicesSelect` | src/pages/operators/index.page.tsx:428-432 | the menu and the index list have the same length, and entry k of the menu is the table entry at index k |
| `Filters.MenuIndicesIncreasing` | src/pages/operators/index.page.tsx:428-432 | the listed branches keep the table's order |
| `Filters.MenuIndicesExactly` | src/pages/operators/index.page.tsx:428-432 | a table position is listed iff its branch's profession is the selected one |
| `Filters.BranchMenuOfOneProfession` | src/pages/operators/index.page.tsx:428-432 | a table whose branches all belong to the selected profession is listed whole |
| `Filters.DisabledSubclassButtonMeansEmptyMenu` | src/pages/operators/index.page.tsx:390-432 | when the sub-class button is disabled (no profession), the menu lists no branch |
| `Filters.Initial` | src/pages/operators/index.page.tsx:222-232 | the `useState` defaults; stated by `InitialState` |
| `Filters.ClassClick` | src/pages/operators/index.page.tsx:280-288 | `handleClassClick` as one step; stated by `ClassClickSpec` and `AllClassesAfterUnknownHashClass` |
| `Filters.SubclassClick` | src/pages/operators/index.page.tsx:290-293 | `handleSubclassClick`; stated by `SubclassClickSpec` |
| `Filters.SubclassFilter` | src/pages/operators/index.page.tsx:295-301 | `handleSubclassFilter`; stated by `SubclassFilterSpec` |
| `Filters.ResetFilter` | src/pages/operators/index.page.tsx:303-306 | `handleResetFilter`; stated by `ResetFilterSpec` |
| `Filters.GuideAvailableChange` | src/pages/operators/index.page.tsx:260-264 | `handleGuideAvailableChange`; stated by `GuideAvailableChangeSpec` |
| `Filters.SetClassMenuOpen` | src/pages/operators/index.page.tsx:266-271 | opening the class menu, and closing it at line 362; it touches only that flag (`SettingsDependencies`) |
| `Filters.SetSubclassMenuOpen` | src/pages/operators/index.page.tsx:273-278 | opening the sub-class menu, and closing it at line 420; it touches only that flag (`SettingsDependencies`) |
| `Filters.HashChange` | src/pages/operators/index.page.tsx:235-252 | `hashChangeCallback`; stated by `HashChangeSpec` and `HashChangeTwoWords` |
| `Filters.Settings` | src/pages/operators/index.page.tsx:315-322 | the `filterSettings` projection; stated by `SettingsDependencies` |
| `Filters.ResetButtonVisible` | src/pages/operators/index.page.tsx:457 | the Reset button's condition, with loose `!= null`; stated by `ResetButtonVisibleIffResetChanges` |
| `Filters.SubclassButtonDisabled` | src/pages/operators/index.page.tsx:390 | the sub-class button's `disabled`, with loose `== null`; tied to the empty menu by `DisabledSubclassButtonMeansEmptyMenu` |
| `Filters.InitialState` | src/pages/operators/index.page.tsx:222-232 | initially guide-only is on, nothing is selected and both menus are closed, so Reset is hidden and the sub-class button disabled |
| `Filters.ClassClickSpec` | src/pages/operators/index.page.tsx:280-288 | sets the profession; a different profession clears the sub-class, the same one keeps it; the class menu closes; the guide flag and the sub-class menu are unchanged; clicking twice is the same as once |
| `Filters.SubclassClickSpec` | src/pages/operators/index.page.tsx:290-293 | sets only the sub-class and closes the sub-class menu; the profession and the guide flag are unchanged |
| `Filters.SubclassFilterSpec` | src/pages/operators/index.page.tsx:295-301 | the filter settings become exactly the given profession and sub-class with the old guide flag; the menus are unchanged |
| `Filters.ResetFilterSpec` | src/pages/operators/index.page.tsx:303-306 | both selections become null whatever the state; the guide flag and menus are unchanged; resetting is idempotent |
| `Filters.ResetButtonVisibleIffResetChanges` | src/pages/operators/index.page.tsx:457 | the Reset button is shown iff a profession or sub-class holds a string; with no `undefined` field that is iff reset would change the state; after a reset it is hidden |
| `Filters.GuideAvailableChangeSpec` | src/pages/operators/index.page.tsx:260-264 | sets the guide flag to the checkbox's value and changes nothing else |
| `Filters.SettingsDependencies` | src/pages/operators/index.page.tsx:315-322 | `filterSettings` is the triple of the guide flag, profession and sub-class; two states give the same settings iff those three agree, so menu toggles never change it |
| `Filters.HashChangeSpec` | src/pages/operators/index.page.tsx:235-252 | an empty hash changes nothing; otherwise the profession and the sub-class come from the parsed parts through the globals helpers, and the guide flag and menus are unchanged |
| `Filters.AllClassesAfterUnknownHashClass` | src/pages/operators/index.page.tsx:280-288 | after a hash whose class the helper maps to `undefined`, clicking "All Classes" (`null`) clears the sub-class, because `undefined !== null` |
| `Filters.HashChangeTwoWords` | src/pages/operators/index.page.tsx:239-250 | a hash like `#guard-arts_fighter` selects `classToProfession(toTitleCase("guard"))` and the sub-class id of `toTitleCase("arts") + " " + toTitleCase("fighter")` |
| `Filters.StepKeepsConsistent` | src/pages/operators/index.page.tsx:260-306 | every click the page offers keeps the selected sub-class among the branches the menu lists for the selected profession |
| `Filters.OfferedRunKeepsConsistent` | src/pages/operators/index.page.tsx:260-306 | so does every sequence of such clicks |
| `Filters.InitialConsistent` | src/pages/operators/index.page.tsx:227-232 | the initial state has no sub-class and so is consistent |
| `OperatorsPage.OperatorFilters.constructor` | src/pages/operators/index.page.tsx:222-232 | the five fields start at guide-only on, no profession, no sub-class, both menus closed |
| `OperatorsPage.OperatorFilters.HashChangeCallback` | src/pages/operators/index.page.tsx:235-252 | the new state is `HashChange` of the old one |
| `OperatorsPage.OperatorFilters.HandleGuideAvailableChange` | src/pages/operators/index.page.tsx:260-264 | the new state is `GuideAvailableChange` of the old one |
| `OperatorsPage.OperatorFilters.HandleClassMenuClick` | src/pages/operators/index.page.tsx:266-271 | opens the class menu and changes nothing else |
| `OperatorsPage.OperatorFilters.HandleSubclassMenuClick` | src/pages/operators/index.page.tsx:273-278 | opens the sub-class menu and changes nothing else |
| `OperatorsPage.OperatorFilters.CloseClassMenu` | src/pages/operators/index.page.tsx:362 | closes the class menu and changes nothing else |
| `OperatorsPage.OperatorFilters.CloseSubclassMenu` | src/pages/operators/index.page.tsx:420 | closes the sub-class menu and changes nothing else |
| `OperatorsPage.OperatorFilters.HandleClassClick` | src/pages/operators/index.page.tsx:280-288 | the new state is `ClassClick` of the old one, with the nested sub-class reset done in the same step |
| `OperatorsPage.OperatorFilters.HandleSubclassClick` | src/pages/operators/index.page.tsx:290-293 | the new state is `SubclassClick` of the old one |
| `OperatorsPage.OperatorFilters.HandleSubclassFilter` | src/pages/operators/index.page.tsx:295-301 | the new state is `SubclassFilter` of the old one |
| `OperatorsPage.OperatorFilters.HandleResetFilter` | src/pages/operators/index.page.tsx:303-306 | the new state is `ResetFilter` of the old one |
| `OperatorsPage.OperatorFilters.FilterSettingsMemo` | src/pages/operators/index.page.tsx:315-322 | the record holds the current guide flag, profession and sub-class |

## Left out

- `getStaticProps` (data imports, the CMS GraphQL query, MDX serialisation) is I/O. The fallback from the CMS entry's class to `classToProfession(className)` is pure, but its input is the fetched entry, so it is left out along with `getStaticProps`.
- A branch's profession is taken to be a string, as the page's `Props` type declares. That fallback fills it from `classToProfession`, which could yield `null` or `undefined`. A branch with a `null` profession would then match `selectedProfession === null` and be listed when no class is selected. The model does not capture this.
- The `hashchange` listener's registration and removal, and the `console.log`, are browser plumbing. `HashChangeCallback` is what the listener runs on each `hashchange` (line 255), and what is called once on mount (line 256).
- `anchorEl`, the DOM element a menu is anchored to, has no logical content.
- React's batching: the nested `setSelectedSubProfessionId` inside the `setSelectedProfession` updater is modelled as one atomic step.
- `showClassDescriptions` and its toggle only decide whether the description cards render.
- `selectedClass` and `selectedSubclass` come from the display helpers `professionToClass` and `subProfessionIdToSubclass`. They are only labels and are not modelled.
- The content of `classToProfession`, `toTitleCase` and `subclassToSubProfessionId` is not part of this model. They are opaque parameters.
- Which operators are visible for a `filterSettings` is decided in the operator list component. That component is not part of this model.
- The DPS result table (`src/components/DpsCalculator/ResultTable/ResultTable.tsx`) only renders values from a store. The store's add-operator and DPS logic is not part of this model.
- The checkbox component (`src/components/CustomCheckbox.tsx`) is presentation only.
- Unicode details: JavaScript strings are UTF-16 code units, while Dafny `char` is a Unicode scalar value. The regular expression has no `u` flag, and the model does not tell the two apart.
