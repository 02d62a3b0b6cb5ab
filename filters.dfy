/** The operator page's filter state as a value, with one pure function per
    event handler, the values the page derives from the state (the
    `filterSettings` record, the reset-button and sub-class-button guards, the
    branch menu), and the invariant that the clicks the page offers keep. */
module Filters {
  import opened Optional
  import HashParser
  import Words

  /** The five `useState` fields the handlers update. */
  datatype FilterState = FilterState(
    selectedProfession: Nullable<string>,
    selectedSubProfessionId: Nullable<string>,
    showOnlyGuideAvailable: bool,
    isClassMenuOpen: bool,
    isSubclassMenuOpen: bool)

  /** The memoised record handed to the operator list. */
  datatype FilterSettings = FilterSettings(
    showOnlyGuideAvailable: bool,
    selectedProfession: Nullable<string>,
    selectedSubProfessionId: Nullable<string>)

  /** One entry of the `branches` prop: its id and its class's profession. */
  datatype Branch = Branch(subProfessionId: string, profession: string)

  /** The helpers the page imports from the site's globals module; their
      definitions are not part of this model, so they are parameters. What a
      helper yields for a name it does not know is not known either, so its
      result may be `null`, `undefined` or a string. */
  datatype Globals = Globals(
    classToProfession: string -> Nullable<string>,
    toTitleCase: string -> string,
    subclassToSubProfessionId: string -> Nullable<string>)

  function Initial(): FilterState
  {
    FilterState(Null, Null, true, false, false)
  }

  /** `handleClassClick(profession)`: a profession that differs under `!==`
      clears the sub-class (`undefined` differs from `null`); the class menu
      closes. */
  function ClassClick(s: FilterState, profession: Nullable<string>): FilterState
  {
    s.(selectedProfession := profession,
       selectedSubProfessionId := if s.selectedProfession != profession then Null else s.selectedSubProfessionId,
       isClassMenuOpen := false)
  }

  /** `handleSubclassClick(subProfessionId)`. */
  function SubclassClick(s: FilterState, subProfessionId: Nullable<string>): FilterState
  {
    s.(selectedSubProfessionId := subProfessionId, isSubclassMenuOpen := false)
  }

  /** `handleSubclassFilter(profession, subProfessionId)`, the operator list's
      "filter by this branch". */
  function SubclassFilter(s: FilterState, profession: string, subProfessionId: string): FilterState
  {
    s.(selectedProfession := Value(profession), selectedSubProfessionId := Value(subProfessionId))
  }

  /** `handleResetFilter()`. */
  function ResetFilter(s: FilterState): FilterState
  {
    s.(selectedProfession := Null, selectedSubProfessionId := Null)
  }

  /** `handleGuideAvailableChange(e)` with `e.target.checked == checked`. */
  function GuideAvailableChange(s: FilterState, checked: bool): FilterState
  {
    s.(showOnlyGuideAvailable := checked)
  }

  /** `handleClassMenuClick` and the class menu's `onClose`. */
  function SetClassMenuOpen(s: FilterState, open: bool): FilterState
  {
    s.(isClassMenuOpen := open)
  }

  /** `handleSubclassMenuClick` and the sub-class menu's `onClose`. */
  function SetSubclassMenuOpen(s: FilterState, open: bool): FilterState
  {
    s.(isSubclassMenuOpen := open)
  }

  /** `hashChangeCallback()` with `window.location.hash == hash`. */
  function HashChange(s: FilterState, hash: string, g: Globals): FilterState
  {
    if |hash| == 0 then s
    else
      var parts := HashParser.ParseHash(hash, g.toTitleCase);
      s.(selectedProfession := g.classToProfession(g.toTitleCase(parts.opClass)),
         selectedSubProfessionId := g.subclassToSubProfessionId(parts.opSubclass))
  }

  /** The `filterSettings` memo. */
  function Settings(s: FilterState): FilterSettings
  {
    FilterSettings(s.showOnlyGuideAvailable, s.selectedProfession, s.selectedSubProfessionId)
  }

  /** Whether the Reset button is rendered: the loose `!= null`, which is false
      of `undefined` too. */
  predicate ResetButtonVisible(s: FilterState)
  {
    !s.selectedProfession.IsNullish() || !s.selectedSubProfessionId.IsNullish()
  }

  /** Whether the sub-class menu button is disabled: the loose `== null`. */
  predicate SubclassButtonDisabled(s: FilterState)
  {
    s.selectedProfession.IsNullish()
  }

  /** The branches the sub-class menu lists: `Object.values(branches).filter(...)`
      with `branch.class.profession === selectedProfession`. A profession is a
      string, never `null` or `undefined`, so nothing is listed when no
      profession is selected. */
  function BranchMenu(branches: seq<Branch>, selected: Nullable<string>): (r: seq<Branch>)
    ensures forall b :: b in r <==> b in branches && selected == Value(b.profession)
    ensures |r| <= |branches|
  {
    if branches == [] then []
    else if selected == Value(branches[0].profession) then [branches[0]] + BranchMenu(branches[1..], selected)
    else BranchMenu(branches[1..], selected)
  }

  function Shift(xs: seq<nat>): seq<nat>
  {
    seq(|xs|, k requires 0 <= k < |xs| => xs[k] + 1)
  }

  /** Positions in the table of the branches whose profession is `selected`. */
  function MenuIndices(branches: seq<Branch>, selected: Nullable<string>): seq<nat>
  {
    if branches == [] then []
    else
      var rest := Shift(MenuIndices(branches[1..], selected));
      if selected == Value(branches[0].profession) then [0] + rest else rest
  }

  lemma {:induction false} MenuIndicesSelect(branches: seq<Branch>, selected: Nullable<string>)
    ensures |BranchMenu(branches, selected)| == |MenuIndices(branches, selected)|
    ensures forall k :: 0 <= k < |MenuIndices(branches, selected)| ==>
      MenuIndices(branches, selected)[k] < |branches| &&
      BranchMenu(branches, selected)[k] == branches[MenuIndices(branches, selected)[k]]
  {
    if branches != [] {
      var tail, menuTail := MenuIndices(branches[1..], selected), BranchMenu(branches[1..], selected);
      MenuIndicesSelect(branches[1..], selected);
      var idx, menu := MenuIndices(branches, selected), BranchMenu(branches, selected);
      var d := if selected == Value(branches[0].profession) then 1 else 0;
      assert idx[d..] == Shift(tail) && menu[d..] == menuTail;
      forall k | d <= k < |idx|
        ensures idx[k] < |branches| && menu[k] == branches[idx[k]]
      {
        assert idx[k] == idx[d..][k - d] == tail[k - d] + 1;
        assert menu[k] == menuTail[k - d] == branches[1..][tail[k - d]];
      }
    }
  }

  lemma {:induction false} MenuIndicesIncreasing(branches: seq<Branch>, selected: Nullable<string>)
    ensures forall k, l :: 0 <= k < l < |MenuIndices(branches, selected)| ==>
      MenuIndices(branches, selected)[k] < MenuIndices(branches, selected)[l]
  {
    if branches != [] {
      MenuIndicesIncreasing(branches[1..], selected);
      var tail := MenuIndices(branches[1..], selected);
      var idx := MenuIndices(branches, selected);
      var d := if selected == Value(branches[0].profession) then 1 else 0;
      assert idx[d..] == Shift(tail);
      forall k, l | 0 <= k < l < |idx|
        ensures idx[k] < idx[l]
      {
        assert idx[l] == tail[l - d] + 1;
        if k >= d {
          assert idx[k] == tail[k - d] + 1;
        }
      }
    }
  }

  lemma {:induction false} MenuIndicesExactly(branches: seq<Branch>, selected: Nullable<string>)
    ensures forall i :: 0 <= i < |branches| ==>
      (i in MenuIndices(branches, selected) <==> selected == Value(branches[i].profession))
  {
    if branches != [] {
      MenuIndicesExactly(branches[1..], selected);
      var tail := MenuIndices(branches[1..], selected);
      var rest := Shift(tail);
      forall i | 1 <= i < |branches|
        ensures i in rest <==> i - 1 in tail
      {
        if i - 1 in tail {
          var k :| 0 <= k < |tail| && tail[k] == i - 1;
          assert rest[k] == i;
        }
      }
      assert 0 !in rest;
    }
  }

  /** The menu is the table's matching branches, each once, in table order:
      entry `k` of the menu is entry `MenuIndices[k]` of the table, the indices
      increase, and they are exactly the positions of the matching branches. */
  lemma BranchMenuInTableOrder(branches: seq<Branch>, selected: Nullable<string>)
    ensures |BranchMenu(branches, selected)| == |MenuIndices(branches, selected)|
    ensures forall k :: 0 <= k < |MenuIndices(branches, selected)| ==>
      MenuIndices(branches, selected)[k] < |branches| &&
      BranchMenu(branches, selected)[k] == branches[MenuIndices(branches, selected)[k]]
    ensures forall k, l :: 0 <= k < l < |MenuIndices(branches, selected)| ==>
      MenuIndices(branches, selected)[k] < MenuIndices(branches, selected)[l]
    ensures forall i :: 0 <= i < |branches| ==>
      (i in MenuIndices(branches, selected) <==> selected == Value(branches[i].profession))
  {
    MenuIndicesSelect(branches, selected);
    MenuIndicesIncreasing(branches, selected);
    MenuIndicesExactly(branches, selected);
  }

  /** With no profession selected the menu is empty, as the disabled button
      suggests. */
  lemma DisabledSubclassButtonMeansEmptyMenu(s: FilterState, branches: seq<Branch>)
    requires SubclassButtonDisabled(s)
    ensures BranchMenu(branches, s.selectedProfession) == []
  {
  }

  /** All of a table's branches are listed when they all belong to the selected
      profession. */
  lemma {:induction false} BranchMenuOfOneProfession(branches: seq<Branch>, profession: string)
    requires forall i :: 0 <= i < |branches| ==> branches[i].profession == profession
    ensures BranchMenu(branches, Value(profession)) == branches
  {
    if branches != [] {
      BranchMenuOfOneProfession(branches[1..], profession);
    }
  }

  lemma InitialState()
    ensures Initial().showOnlyGuideAvailable
    ensures Initial().selectedProfession == Null && Initial().selectedSubProfessionId == Null
    ensures !Initial().isClassMenuOpen && !Initial().isSubclassMenuOpen
    ensures !ResetButtonVisible(Initial()) && SubclassButtonDisabled(Initial())
  {
  }

  lemma ClassClickSpec(s: FilterState, profession: Nullable<string>)
    ensures ClassClick(s, profession).selectedProfession == profession
    ensures s.selectedProfession != profession ==> ClassClick(s, profession).selectedSubProfessionId == Null
    ensures s.selectedProfession == profession ==> ClassClick(s, profession).selectedSubProfessionId == s.selectedSubProfessionId
    ensures !ClassClick(s, profession).isClassMenuOpen
    ensures ClassClick(s, profession).showOnlyGuideAvailable == s.showOnlyGuideAvailable
    ensures ClassClick(s, profession).isSubclassMenuOpen == s.isSubclassMenuOpen
    ensures ClassClick(ClassClick(s, profession), profession) == ClassClick(s, profession)
  {
  }

  lemma SubclassClickSpec(s: FilterState, subProfessionId: Nullable<string>)
    ensures SubclassClick(s, subProfessionId)
         == s.(selectedSubProfessionId := subProfessionId, isSubclassMenuOpen := false)
    ensures SubclassClick(s, subProfessionId).selectedProfession == s.selectedProfession
    ensures SubclassClick(s, subProfessionId).showOnlyGuideAvailable == s.showOnlyGuideAvailable
  {
  }

  lemma SubclassFilterSpec(s: FilterState, profession: string, subProfessionId: string)
    ensures Settings(SubclassFilter(s, profession, subProfessionId))
         == FilterSettings(s.showOnlyGuideAvailable, Value(profession), Value(subProfessionId))
    ensures SubclassFilter(s, profession, subProfessionId).isClassMenuOpen == s.isClassMenuOpen
    ensures SubclassFilter(s, profession, subProfessionId).isSubclassMenuOpen == s.isSubclassMenuOpen
  {
  }

  lemma ResetFilterSpec(s: FilterState)
    ensures ResetFilter(s).selectedProfession == Null && ResetFilter(s).selectedSubProfessionId == Null
    ensures ResetFilter(s).showOnlyGuideAvailable == s.showOnlyGuideAvailable
    ensures ResetFilter(s).isClassMenuOpen == s.isClassMenuOpen
    ensures ResetFilter(s).isSubclassMenuOpen == s.isSubclassMenuOpen
    ensures ResetFilter(ResetFilter(s)) == ResetFilter(s)
  {
  }

  /** The Reset button is shown exactly when a profession or a sub-class is
      selected. When neither field is `undefined`, that is exactly when resetting
      would change the state. An `undefined` field hides the button, yet a reset
      would still turn it into `null`. After a reset the button is hidden. */
  lemma ResetButtonVisibleIffResetChanges(s: FilterState)
    ensures ResetButtonVisible(s) <==> s.selectedProfession.Value? || s.selectedSubProfessionId.Value?
    ensures s.selectedProfession != Undefined && s.selectedSubProfessionId != Undefined ==>
      (ResetButtonVisible(s) <==> ResetFilter(s) != s)
    ensures !ResetButtonVisible(ResetFilter(s))
  {
  }

  lemma GuideAvailableChangeSpec(s: FilterState, checked: bool)
    ensures Settings(GuideAvailableChange(s, checked))
         == FilterSettings(checked, s.selectedProfession, s.selectedSubProfessionId)
    ensures GuideAvailableChange(s, checked).(showOnlyGuideAvailable := s.showOnlyGuideAvailable) == s
  {
  }

  /** `filterSettings` depends on exactly its three memo dependencies, so opening
      or closing a menu never changes it. */
  lemma SettingsDependencies(s: FilterState, t: FilterState, open: bool)
    ensures Settings(s) == Settings(t) <==>
      s.showOnlyGuideAvailable == t.showOnlyGuideAvailable &&
      s.selectedProfession == t.selectedProfession &&
      s.selectedSubProfessionId == t.selectedSubProfessionId
    ensures Settings(SetClassMenuOpen(s, open)) == Settings(s)
    ensures Settings(SetSubclassMenuOpen(s, open)) == Settings(s)
  {
  }

  /** An empty hash changes nothing; otherwise the profession and sub-class come
      from the parsed parts through the site's helpers, and nothing else changes. */
  lemma HashChangeSpec(s: FilterState, hash: string, g: Globals)
    ensures |hash| == 0 ==> HashChange(s, hash, g) == s
    ensures |hash| > 0 ==>
      var parts := HashParser.ParseHash(hash, g.toTitleCase);
      HashChange(s, hash, g)
        == s.(selectedProfession := g.classToProfession(g.toTitleCase(parts.opClass)),
              selectedSubProfessionId := g.subclassToSubProfessionId(parts.opSubclass))
    ensures HashChange(s, hash, g).showOnlyGuideAvailable == s.showOnlyGuideAvailable
    ensures HashChange(s, hash, g).isClassMenuOpen == s.isClassMenuOpen
    ensures HashChange(s, hash, g).isSubclassMenuOpen == s.isSubclassMenuOpen
  {
  }

  /** A two-word branch hash such as `#guard-arts_fighter` selects the profession
      of the title-cased class and the sub-class id of the two title-cased words
      joined by a space. */
  lemma HashChangeTwoWords(s: FilterState, g: Globals, cls: string, first: string, second: string)
    requires '-' !in cls && '_' !in first && '_' !in second
    requires HashParser.NoLineTerminator(first + "_" + second)
    ensures HashChange(s, "#" + cls + "-" + first + "_" + second, g).selectedProfession
         == g.classToProfession(g.toTitleCase(cls))
    ensures HashChange(s, "#" + cls + "-" + first + "_" + second, g).selectedSubProfessionId
         == g.subclassToSubProfessionId(g.toTitleCase(first) + " " + g.toTitleCase(second))
  {
    var rest := first + "_" + second;
    assert "#" + cls + "-" + first + "_" + second == "#" + cls + "-" + rest;
    HashParser.ParseHashWithSubclass(cls, rest, g.toTitleCase);
    Words.SplitTwoWords(first, second, '_');
    var words := Words.Map(g.toTitleCase, [first, second]);
    assert words == [g.toTitleCase(first), g.toTitleCase(second)];
    assert Words.Join(words, " ") == g.toTitleCase(first) + " " + g.toTitleCase(second) by {
      assert words[1..] == [g.toTitleCase(second)];
    }
  }

  /** Take a hash whose class the helper does not know, so that the profession
      becomes `undefined`. Clicking "All Classes" (`null`) then clears the
      sub-class the hash selected, since `undefined !== null`. */
  lemma AllClassesAfterUnknownHashClass(s: FilterState, hash: string, g: Globals)
    requires |hash| > 0
    requires g.classToProfession(g.toTitleCase(HashParser.ParseHash(hash, g.toTitleCase).opClass)) == Undefined
    ensures HashChange(s, hash, g).selectedProfession == Undefined
    ensures ClassClick(HashChange(s, hash, g), Null)
         == HashChange(s, hash, g).(selectedProfession := Null, selectedSubProfessionId := Null, isClassMenuOpen := false)
  {
  }

  /** The selected sub-class, if any, is one the sub-class menu lists for the
      selected profession. */
  ghost predicate Consistent(s: FilterState, branches: seq<Branch>)
  {
    s.selectedSubProfessionId.IsNullish() ||
    exists b :: b in BranchMenu(branches, s.selectedProfession) && b.subProfessionId == s.selectedSubProfessionId.value
  }

  /** A click the rendered page can deliver. */
  datatype Event =
    | ClassSelected(profession: Nullable<string>)
    | SubclassSelected(subProfessionId: Nullable<string>)
    | BranchFiltered(branchProfession: string, branchId: string)
    | ResetClicked
    | GuideToggled(checked: bool)
    | ClassMenuToggled(open: bool)
    | SubclassMenuToggled(open: bool)

  function Step(s: FilterState, e: Event): FilterState
  {
    match e
    case ClassSelected(p) => ClassClick(s, p)
    case SubclassSelected(id) => SubclassClick(s, id)
    case BranchFiltered(p, id) => SubclassFilter(s, p, id)
    case ResetClicked => ResetFilter(s)
    case GuideToggled(checked) => GuideAvailableChange(s, checked)
    case ClassMenuToggled(open) => SetClassMenuOpen(s, open)
    case SubclassMenuToggled(open) => SetSubclassMenuOpen(s, open)
  }

  /** Whether `e` can come from the page in state `s`: a sub-class click is
      "All Branches" or an item of the sub-class menu, and a branch filter names
      a branch of the table with its own profession. */
  ghost predicate Offered(s: FilterState, e: Event, branches: seq<Branch>)
  {
    match e
    case SubclassSelected(id) =>
      id == Null || (id.Value? && exists b :: b in BranchMenu(branches, s.selectedProfession) && b.subProfessionId == id.value)
    case BranchFiltered(p, id) => Branch(id, p) in branches
    case _ => true
  }

  function Run(s: FilterState, events: seq<Event>): FilterState
    decreases |events|
  {
    if events == [] then s else Run(Step(s, events[0]), events[1..])
  }

  ghost predicate OfferedRun(s: FilterState, events: seq<Event>, branches: seq<Branch>)
    decreases |events|
  {
    events == [] || (Offered(s, events[0], branches) && OfferedRun(Step(s, events[0]), events[1..], branches))
  }

  lemma StepKeepsConsistent(s: FilterState, e: Event, branches: seq<Branch>)
    requires Consistent(s, branches) && Offered(s, e, branches)
    ensures Consistent(Step(s, e), branches)
  {
  }

  /** Every sequence of clicks the page offers, from any consistent state and so
      from the initial one, leaves the sub-class within the selected profession. */
  lemma {:induction false} OfferedRunKeepsConsistent(s: FilterState, events: seq<Event>, branches: seq<Branch>)
    requires Consistent(s, branches) && OfferedRun(s, events, branches)
    ensures Consistent(Run(s, events), branches)
    decreases |events|
  {
    if events != [] {
      StepKeepsConsistent(s, events[0], branches);
      OfferedRunKeepsConsistent(Step(s, events[0]), events[1..], branches);
    }
  }

  lemma InitialConsistent(branches: seq<Branch>)
    ensures Consistent(Initial(), branches)
  {
  }
}
