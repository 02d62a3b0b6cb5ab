/** The operator page's filter state as the page keeps it: five fields that the
    event handlers update in place. Each handler is proved to produce the state
    the matching function of module Filters describes. */
module OperatorsPage {
  import opened Optional
  import opened Filters
  import HashParser

  class OperatorFilters {
    // Typed `string | null`; the hash callback can store `undefined` from a helper.
    var selectedProfession: Nullable<string>
    var selectedSubProfessionId: Nullable<string>
    var showOnlyGuideAvailable: bool
    var isClassMenuOpen: bool
    var isSubclassMenuOpen: bool

    /** The fields as a value. */
    function State(): FilterState
      reads this
    {
      FilterState(selectedProfession, selectedSubProfessionId, showOnlyGuideAvailable,
                  isClassMenuOpen, isSubclassMenuOpen)
    }

    /** The `useState` initial values: guide-only on, nothing selected, both
        menus closed. */
    constructor ()
      ensures selectedProfession == Null && selectedSubProfessionId == Null
      ensures showOnlyGuideAvailable && !isClassMenuOpen && !isSubclassMenuOpen
      ensures State() == Initial()
    {
      selectedProfession := Null;
      selectedSubProfessionId := Null;
      showOnlyGuideAvailable := true;
      isClassMenuOpen := false;
      isSubclassMenuOpen := false;
    }

    /** `hashChangeCallback`, run once on mount and on every `hashchange`. */
    method HashChangeCallback(hash: string, g: Globals)
      modifies this
      ensures State() == HashChange(old(State()), hash, g)
    {
      if |hash| > 0 {
        var parts := HashParser.ParseHash(hash, g.toTitleCase);
        selectedProfession := g.classToProfession(g.toTitleCase(parts.opClass));
        selectedSubProfessionId := g.subclassToSubProfessionId(parts.opSubclass);
      }
    }

    method HandleGuideAvailableChange(checked: bool)
      modifies this
      ensures State() == GuideAvailableChange(old(State()), checked)
    {
      showOnlyGuideAvailable := checked;
    }

    method HandleClassMenuClick()
      modifies this
      ensures State() == SetClassMenuOpen(old(State()), true)
    {
      isClassMenuOpen := true;
    }

    method HandleSubclassMenuClick()
      modifies this
      ensures State() == SetSubclassMenuOpen(old(State()), true)
    {
      isSubclassMenuOpen := true;
    }

    /** The class menu's `onClose`. */
    method CloseClassMenu()
      modifies this
      ensures State() == SetClassMenuOpen(old(State()), false)
    {
      isClassMenuOpen := false;
    }

    /** The sub-class menu's `onClose`. */
    method CloseSubclassMenu()
      modifies this
      ensures State() == SetSubclassMenuOpen(old(State()), false)
    {
      isSubclassMenuOpen := false;
    }

    /** The profession update and the sub-class reset it triggers happen as one
        step. */
    method HandleClassClick(profession: Nullable<string>)
      modifies this
      ensures State() == ClassClick(old(State()), profession)
    {
      var oldProfession := selectedProfession;
      if oldProfession != profession {
        selectedSubProfessionId := Null;
      }
      selectedProfession := profession;
      isClassMenuOpen := false;
    }

    method HandleSubclassClick(subProfessionId: Nullable<string>)
      modifies this
      ensures State() == SubclassClick(old(State()), subProfessionId)
    {
      selectedSubProfessionId := subProfessionId;
      isSubclassMenuOpen := false;
    }

    method HandleSubclassFilter(profession: string, subProfessionId: string)
      modifies this
      ensures State() == SubclassFilter(old(State()), profession, subProfessionId)
    {
      selectedProfession := Value(profession);
      selectedSubProfessionId := Value(subProfessionId);
    }

    method HandleResetFilter()
      modifies this
      ensures State() == ResetFilter(old(State()))
    {
      selectedProfession := Null;
      selectedSubProfessionId := Null;
    }

    /** The `filterSettings` record handed to the operator list. */
    method FilterSettingsMemo() returns (settings: FilterSettings)
      ensures settings == Settings(State())
      ensures settings.showOnlyGuideAvailable == showOnlyGuideAvailable
      ensures settings.selectedProfession == selectedProfession
      ensures settings.selectedSubProfessionId == selectedSubProfessionId
    {
      settings := FilterSettings(showOnlyGuideAvailable, selectedProfession, selectedSubProfessionId);
    }
  }
}
