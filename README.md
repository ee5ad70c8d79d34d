# BeneDict lookup state manager in Dafny

BeneDict is an iOS dictionary app. A user types, pastes, drops or deep-links a
term. The app asks the system dictionary whether it has a definition. If it
does, the app shows the definition; if not, it raises a "no definition" alert.
All of this state lives in one object, `AppViewModel`, whose intent methods
change its fields in place. This project models that class and proves what
each intent does to each field.

- `text.dfy` (module `Text`): Foundation's
  `trimmingCharacters(in: .whitespacesAndNewlines)`, as `Trim`. It removes
  leading and trailing characters drawn from a fixed whitespace set: TAB, LF,
  VT, FF, CR, U+0085 and the Unicode space, line and paragraph separators.
  Proved: the result has whitespace at neither end; the input is the result
  with whitespace before and after it; whitespace around an unpadded core
  trims to exactly that core; trimming is idempotent; and a term trims to
  empty exactly when it is all whitespace.
- `history.dfy` (module `History`): `addHistory` as the function `Add`. `Add`
  uses `RemoveAll`, which is Swift's `removeAll { $0 == term }`, then puts the
  term in front. Proved, as lemmas about these two functions:
  - the term ends up first and exactly once;
  - every other entry keeps its relative order;
  - a duplicate-free history stays duplicate-free and grows by at most one;
  - adding the same term twice equals adding it once.
- `app_view_model.dfy` (module `Core`): the class `AppViewModel` with its six
  fields (`searchTerm`, `presentedTerm`, `showSettings`, `noDefinitionTerm`,
  `history`, `favorites`) and its intent methods.
  - The system dictionary check
    `UIReferenceLibraryViewController.dictionaryHasDefinition(forTerm:)` is the
    parameter `hasDefinition: string -> bool` of `PerformSearch` and
    `ShowDefinition`. Each call asks it once, so the dictionary may differ
    from one call to the next.
  - `Valid()` is the class invariant. It requires that:
    - the history has no duplicates;
    - the history holds only trimmed, non-empty terms;
    - a definition and the settings view are never shown together;
    - the term on screen is in the history;
    - the alert names a trimmed, non-empty term.
  - The constructor establishes `Valid()` and every intent method preserves it.
  - Each method's postcondition gives the exact new value of every field.
  - The `Scenario…` methods state the app's lookup scenarios as assertions
    that the verifier proves from these contracts.

`showDefinition` (BeneDict/Core/AppViewModel.swift:49, :57) first sets
`searchTerm` to the trimmed word. It then clears the field only if the trimmed
word differs from `searchTerm`, which can no longer happen. So a successful
`showDefinition` always leaves the trimmed word in the search field. The
comment on line 49 says this is the intended effect for history taps. The
comments on lines 55-56 describe a broader rule: clear the field after a hit,
unless the lookup came from the history. As written, the field is never
cleared. The model follows the code, and
`Core.AppViewModel.ShowDefinition` proves `searchTerm == Trim(word)` on
success.

## Model

| member | source | states |
|---|---|---|
| Text.Trim | BeneDict/Core/AppViewModel.swift:24 | the trimmed term is no longer than the input and has whitespace at neither end |
| Text.TrimSplit | BeneDict/Core/AppViewModel.swift:24 | trimming removes only whitespace: the input is the result with all-whitespace text before and after it |
| Text.TrimDropsPrefix | BeneDict/Core/AppViewModel.swift:24 | leading whitespace does not change the trimmed term |
| Text.TrimDropsSuffix | BeneDict/Core/AppViewModel.swift:24 | trailing whitespace does not change the trimmed term |
| Text.TrimUnpadded | BeneDict/Core/AppViewModel.swift:45 | a string with whitespace at neither end trims to itself |
| Text.TrimOfPadded | BeneDict/Core/AppViewModel.swift:45 | an unpadded core with whitespace on both sides trims to exactly that core; with TrimSplit this determines trimming completely |
| Text.TrimIdempotent | BeneDict/Core/AppViewModel.swift:45 | trimming an already trimmed term changes nothing |
| Text.TrimEmptyIff | BeneDict/Core/AppViewModel.swift:24-25 | the empty-term guard fires exactly when the input is all whitespace |
| History.RemoveAll | BeneDict/Core/AppViewModel.swift:89 | removeAll never lengthens the list and leaves no copy of the term; RemoveAllCount and RemoveAllConcat give the exact counts and order of what remains |
| History.Add | BeneDict/Core/AppViewModel.swift:88-91 | after addHistory the history is not empty and the term is its first entry |
| History.RemoveAllCount | BeneDict/Core/AppViewModel.swift:89 | removeAll leaves no copy of the term and every other entry with its old count |
| History.AddCount | BeneDict/Core/AppViewModel.swift:88-91 | after addHistory the term occurs exactly once and every other entry keeps its old count |
| History.RemoveAllMembers | BeneDict/Core/AppViewModel.swift:89 | after removeAll the entries are the old ones other than the term |
| History.AddMembers | BeneDict/Core/AppViewModel.swift:88-91 | after addHistory the entries are the term and the old entries, nothing else |
| History.RemoveAllKeepsNoDuplicates | BeneDict/Core/AppViewModel.swift:89 | removeAll keeps a duplicate-free history duplicate-free |
| History.AddKeepsNoDuplicates | BeneDict/Core/AppViewModel.swift:88-91 | addHistory keeps a duplicate-free history duplicate-free |
| History.RemoveAllConcat | BeneDict/Core/AppViewModel.swift:89 | removal distributes over concatenation, so survivors keep their relative order |
| History.RemoveAllAbsent | BeneDict/Core/AppViewModel.swift:89 | removing a term that is not present leaves the list unchanged |
| History.RemoveAllSplice | BeneDict/Core/AppViewModel.swift:89 | removing the only copy of a term from between two lists yields those two lists joined |
| History.RemoveAllAt | BeneDict/Core/AppViewModel.swift:89 | in a duplicate-free list, removing the entry at index k cuts out exactly that entry |
| History.AddNew | BeneDict/Core/AppViewModel.swift:88-91 | a term not yet in the history is pushed in front of the unchanged history |
| History.AddExisting | BeneDict/Core/AppViewModel.swift:88-91 | a term already at index k moves to the front and the other entries keep their order |
| History.AddLength | BeneDict/Core/AppViewModel.swift:88-91 | a duplicate-free history keeps its length on a repeated term and grows by one on a new one |
| History.AddTwice | BeneDict/Core/AppViewModel.swift:88-91 | recording the same term twice gives the same history as recording it once |
| History.AddFront | BeneDict/Core/AppViewModel.swift:88-91 | looking up the most recent term again leaves the history unchanged |
| Core.IsTermIff | BeneDict/Core/AppViewModel.swift:24-25 | a term that may be recorded is exactly a non-empty string that trimming leaves alone, and every non-empty trim result is one |
| Core.AddKeepsGoodHistory | BeneDict/Core/AppViewModel.swift:28-32 | recording a trimmed, non-empty term keeps the history duplicate-free and made of such terms |
| Core.AppViewModel.Valid | BeneDict/Core/AppViewModel.swift:11-12 | the class invariant: history without duplicates and made of trimmed, non-empty terms; a definition and the settings view never shown together (as lines 30-31, 50-51 and 70-71 keep them); the term on screen in the history; the alert naming a trimmed, non-empty term |
| Core.Toggle | BeneDict/Core/AppViewModel.swift:76-82 | toggling flips membership of the term and keeps membership of every other term |
| Core.ToggleTwice | BeneDict/Core/AppViewModel.swift:76-82 | toggling the same term twice restores the favourites |
| Core.AppViewModel.constructor | BeneDict/Core/AppViewModel.swift:10-19 | the initial state has an empty field and history, nothing presented, no settings, no alert and no favourites, and it satisfies the class invariant |
| Core.AppViewModel.PerformSearch | BeneDict/Core/AppViewModel.swift:23-42 | blank search text changes nothing. On a hit: settings closed, trimmed term presented, term moved to the front of the history, field emptied, alert and favourites untouched. On a miss: only the alert is set, to the trimmed term. The invariant is preserved |
| Core.AppViewModel.ShowDefinition | BeneDict/Core/AppViewModel.swift:44-66 | a blank word changes nothing. On a hit: field and presented term both become the trimmed word (the clearing branch is never taken), settings closed, term moved to the front of the history. On a miss: only the alert is set. The invariant is preserved |
| Core.AppViewModel.ShowSettingsView | BeneDict/Core/AppViewModel.swift:68-72 | no term is presented and settings are shown, with every other field unchanged and the invariant preserved |
| Core.AppViewModel.ToggleFavorite | BeneDict/Core/AppViewModel.swift:76-82 | the favourites become the toggled set and no other field changes |
| Core.AppViewModel.IsFavorite | BeneDict/Core/AppViewModel.swift:84-86 | the answer is exactly membership of the term in the favourites, and nothing changes |
| Core.AppViewModel.AddHistory | BeneDict/Core/AppViewModel.swift:88-91 | the history becomes Add(old history, term) and no other field changes |

## Left out

- The system dictionary lookup is not modelled, because it is a sealed operating-system service. It is the function parameter `hasDefinition` of the two lookup methods, and nothing is assumed about it between calls.
- History.Add: terms are compared by exact sequence of Unicode scalar values, where Swift's `String ==` (line 89) uses canonical equivalence, so the model assumes all terms arrive in one normalization form; a precomposed "é" and "e" with a combining accent would be two history entries here and one in the app.
- Core.Toggle: set membership uses the same exact comparison, where `Set<String>` (lines 77-80) uses canonical equivalence; the same normalization assumption applies.
- Core.AppViewModel.IsFavorite: the membership test compares exactly, where `Set.contains` (line 85) uses canonical equivalence; the same normalization assumption applies.
- The `print` logging calls (BeneDict/Core/AppViewModel.swift:29, 38, 53, 62, 69) are left out, because they only produce output.
- The `@Observable` change propagation is left out. It is framework machinery with no effect on the fields' values.
- The views (BeneDict/Views/ContentView.swift, DefinitionView.swift, SettingsView.swift) are left out. They only compose UI and forward user actions to the intent methods.
- The deep-link handler (BeneDict/BeneDictApp.swift:22-35) is left out. It only forwards the URL's `term` value to `showDefinition`, which is modelled.
- Persistence of history and favourites, clipboard truncation and speech input are left out. None of them appears in the code of `AppViewModel`.
- Trimming is modelled on Unicode scalar values. Foundation trims an `NSString` by UTF-16 code units, and every character in the whitespace set is a single code unit, so this changes nothing for it.
- In the model, `AddHistory` is public. The app declares it `private`; the model does not restrict visibility.
