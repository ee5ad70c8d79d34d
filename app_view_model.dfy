/** The lookup state manager of the dictionary app (`AppViewModel`): the text
    in the search field, the term whose definition is on screen, whether the
    settings view is shown, the term of a pending "no definition" alert, the
    lookup history and the favourite terms. User intents change these fields
    in place. */
module Core {
  import opened Text
  import opened History

  datatype Option<T> = None | Some(value: T)

  /** A term that can reach the history, the screen or the alert: not empty
      and without whitespace at either end. */
  predicate IsTerm(s: string) {
    s != [] && Unpadded(s)
  }

  /** The terms are exactly the non-empty strings that trimming leaves alone;
      every non-empty result of trimming is one. */
  lemma IsTermIff(s: string)
    ensures IsTerm(s) <==> s != [] && Trim(s) == s
    ensures Trim(s) != [] ==> IsTerm(Trim(s))
  {
    if IsTerm(s) {
      TrimUnpadded(s);
    }
  }

  /** A history that holds each term at most once and only trimmed,
      non-empty terms. */
  predicate GoodHistory(h: seq<string>) {
    NoDuplicates(h) && forall u :: u in h ==> IsTerm(u)
  }

  /** Recording a trimmed, non-empty term keeps the history good. */
  lemma AddKeepsGoodHistory(h: seq<string>, t: string)
    requires GoodHistory(h) && IsTerm(t)
    ensures GoodHistory(Add(h, t))
  {
    AddKeepsNoDuplicates(h, t);
    AddMembers(h, t);
  }

  /** The favourites after toggling `t`. */
  function Toggle(favorites: set<string>, t: string): (r: set<string>)
    ensures t in r <==> t !in favorites
    ensures forall u :: u != t ==> (u in r <==> u in favorites)
  {
    if t in favorites then favorites - {t} else favorites + {t}
  }

  /** Toggling a favourite twice restores the set. */
  lemma ToggleTwice(favorites: set<string>, t: string)
    ensures Toggle(Toggle(favorites, t), t) == favorites
  {
  }

  class AppViewModel {
    var searchTerm: string
    var presentedTerm: Option<string>
    var showSettings: bool
    var noDefinitionTerm: Option<string>
    var history: seq<string>
    var favorites: set<string>

    /** The history holds each term at most once and only trimmed, non-empty
        terms; a definition and the settings view are never shown together;
        the term on screen is in the history; the alert names a trimmed,
        non-empty term. */
    ghost predicate Valid()
      reads this
    {
      && GoodHistory(history)
      && !(presentedTerm.Some? && showSettings)
      && (presentedTerm.Some? ==> presentedTerm.value in history)
      && (noDefinitionTerm.Some? ==> IsTerm(noDefinitionTerm.value))
    }

    constructor ()
      ensures Valid()
      ensures searchTerm == "" && presentedTerm == None && !showSettings
      ensures noDefinitionTerm == None && history == [] && favorites == {}
    {
      searchTerm := "";
      presentedTerm := None;
      showSettings := false;
      noDefinitionTerm := None;
      history := [];
      favorites := {};
    }

    /** Looks up the trimmed search field. Blank input does nothing; a hit
        shows the definition, records the term and empties the field; a miss
        only raises the "no definition" alert. `hasDefinition` is the system
        dictionary's existence check
        (`UIReferenceLibraryViewController.dictionaryHasDefinition(forTerm:)`),
        asked once, with the trimmed term. */
    method PerformSearch(hasDefinition: string -> bool)
      requires Valid()
      modifies this
      ensures Valid()
      ensures old(Trim(searchTerm)) == [] ==> unchanged(this)
      ensures old(Trim(searchTerm)) != [] && hasDefinition(old(Trim(searchTerm))) ==>
        && searchTerm == ""
        && presentedTerm == Some(old(Trim(searchTerm)))
        && !showSettings
        && noDefinitionTerm == old(noDefinitionTerm)
        && history == Add(old(history), old(Trim(searchTerm)))
        && favorites == old(favorites)
      ensures old(Trim(searchTerm)) != [] && !hasDefinition(old(Trim(searchTerm))) ==>
        && searchTerm == old(searchTerm)
        && presentedTerm == old(presentedTerm)
        && showSettings == old(showSettings)
        && noDefinitionTerm == Some(old(Trim(searchTerm)))
        && history == old(history)
        && favorites == old(favorites)
    {
      var term := Trim(searchTerm);
      if term == [] {
        return;
      }
      if hasDefinition(term) {
        AddKeepsGoodHistory(history, term);
        showSettings := false;
        presentedTerm := Some(term);
        AddHistory(term);
        searchTerm := "";
      } else {
        noDefinitionTerm := Some(term);
      }
    }

    /** Looks up `word` (a history row, a deep link, pasted or dropped text).
        The field is set to the trimmed word before the comparison that
        would empty it, so that comparison never holds and a hit leaves the
        trimmed word in the search field. */
    method ShowDefinition(word: string, hasDefinition: string -> bool)
      requires Valid()
      modifies this
      ensures Valid()
      ensures Trim(word) == [] ==> unchanged(this)
      ensures Trim(word) != [] && hasDefinition(Trim(word)) ==>
        && searchTerm == Trim(word)
        && presentedTerm == Some(Trim(word))
        && !showSettings
        && noDefinitionTerm == old(noDefinitionTerm)
        && history == Add(old(history), Trim(word))
        && favorites == old(favorites)
      ensures Trim(word) != [] && !hasDefinition(Trim(word)) ==>
        && searchTerm == old(searchTerm)
        && presentedTerm == old(presentedTerm)
        && showSettings == old(showSettings)
        && noDefinitionTerm == Some(Trim(word))
        && history == old(history)
        && favorites == old(favorites)
    {
      var cleanedWord := Trim(word);
      if cleanedWord == [] {
        return;
      }
      if hasDefinition(cleanedWord) {
        AddKeepsGoodHistory(history, cleanedWord);
        searchTerm := cleanedWord;
        presentedTerm := Some(cleanedWord);
        showSettings := false;
        AddHistory(cleanedWord);
        // The app clears the field only when `cleanedWord != searchTerm`,
        // which the assignment above has made false.
        searchTerm := if cleanedWord != searchTerm then "" else searchTerm;
      } else {
        noDefinitionTerm := Some(cleanedWord);
      }
    }

    /** Opens the settings view, closing any definition on screen. */
    method ShowSettingsView()
      requires Valid()
      modifies this
      ensures Valid()
      ensures presentedTerm == None && showSettings
      ensures searchTerm == old(searchTerm) && noDefinitionTerm == old(noDefinitionTerm)
      ensures history == old(history) && favorites == old(favorites)
    {
      presentedTerm := None;
      showSettings := true;
    }

    /** Adds `term` to the favourites or removes it from them. */
    method ToggleFavorite(term: string)
      requires Valid()
      modifies this
      ensures Valid()
      ensures favorites == Toggle(old(favorites), term)
      ensures searchTerm == old(searchTerm) && presentedTerm == old(presentedTerm)
      ensures showSettings == old(showSettings) && noDefinitionTerm == old(noDefinitionTerm)
      ensures history == old(history)
    {
      if term in favorites {
        favorites := favorites - {term};
      } else {
        favorites := favorites + {term};
      }
    }

    /** Whether `term` is a favourite; changes nothing. */
    method IsFavorite(term: string) returns (b: bool)
      ensures b <==> term in favorites
    {
      b := term in favorites;
    }

    /** Moves `term` to the front of the history, dropping its older copy
        (private in the app). */
    method AddHistory(term: string)
      modifies this
      ensures history == Add(old(history), term)
      ensures searchTerm == old(searchTerm) && presentedTerm == old(presentedTerm)
      ensures showSettings == old(showSettings) && noDefinitionTerm == old(noDefinitionTerm)
      ensures favorites == old(favorites)
    {
      history := RemoveAll(history, term);
      history := [term] + history;
    }
  }

  /** A dictionary that knows exactly "猫" and "狗", for the scenarios below. */
  predicate Known(s: string) {
    s == "猫" || s == "狗"
  }

  /** Looking up "猫" twice records it once and leaves it in the field. */
  method ScenarioRepeatedLookup() {
    var vm := new AppViewModel();
    vm.ShowDefinition("猫", Known);
    assert vm.history == ["猫"];
    vm.ShowDefinition("猫", Known);
    AddFront(["猫"]);
    assert vm.history == ["猫"] && vm.presentedTerm == Some("猫") && vm.searchTerm == "猫";
  }

  /** A padded search is trimmed, recorded in front and the field emptied. */
  method ScenarioSearchHit() {
    var vm := new AppViewModel();
    var pad, dog := "  ", "狗";
    TrimOfPadded(pad, dog, pad);
    vm.searchTerm := pad + dog + pad;
    vm.PerformSearch(Known);
    assert vm.history == [dog] && vm.searchTerm == "" && vm.presentedTerm == Some(dog);
  }

  /** A miss only raises the alert, with the trimmed term. */
  method ScenarioSearchMiss() {
    var vm := new AppViewModel();
    var pad, bird := " ", "鳥";
    TrimOfPadded(pad, bird, []);
    assert !Known(bird);
    vm.searchTerm := pad + bird + [];
    vm.PerformSearch(Known);
    assert vm.noDefinitionTerm == Some(bird) && vm.history == [] && vm.searchTerm == pad + bird + [];
  }

  /** Blank input does nothing. */
  method ScenarioBlank() {
    var vm := new AppViewModel();
    vm.ShowDefinition(" \n\t", Known);
    assert vm.noDefinitionTerm == None && vm.presentedTerm == None && vm.history == [];
  }

  /** Toggling a favourite twice restores the favourites; settings close the
      definition on screen. */
  method ScenarioFavoritesAndSettings() {
    var vm := new AppViewModel();
    vm.ToggleFavorite("狗");
    var fav := vm.IsFavorite("狗");
    assert fav;
    vm.ToggleFavorite("狗");
    ToggleTwice({}, "狗");
    assert vm.favorites == {};
    vm.ShowSettingsView();
    assert vm.presentedTerm == None && vm.showSettings;
  }
}
