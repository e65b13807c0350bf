# smart-med-scan: a Dafny model of the search, history, favorites and label-reading core

smart-med-scan is a browser application for looking up medicines. Its
logic lives in `app.js`. This project models the parts of that file that
decide things. The model does not cover rendering.

- **Catalog search.** `performSearch` lower-cases and trims the query. An
  empty key goes back to the welcome screen. Otherwise three tiers are tried
  in order, each taking the first hit in catalog order:
  1. an exact name;
  2. an exact alias;
  3. a name or alias that contains the key.

  The hit's details are shown, or "No medicine found" is alerted. The model
  is the `Catalog` module.
- **Suggestions.** `renderSuggestions` keeps the entries whose name contains
  the trimmed, lower-cased query, lists at most six of them, and adds a
  "Show more results" row when there were more. The model is the
  `Suggestions` module.
- **Search history.** `addToHistory` puts the trimmed name first and drops
  the entries equal to it up to case. It then pops the oldest entry when the
  list passes ten. `getRecentHistory` takes a prefix with JavaScript `slice`
  semantics. The "Clear recent" button empties the list; the "Clear All"
  button empties it only after the user confirms the dialog. The model is
  the `History` module.
- **Favorites.** `toggleFavorite` removes every favorite with the
  medicine's name, or appends the medicine. The details page fills the heart
  when some favorite has that name. The favorites page opens the catalog's
  record of a stored favorite, or the stored copy when the catalog has none.
  The model is the `Favorites` module.
- **Label reading.** The OCR handler turns the recognised text into a word
  list:
  1. replace non-alphanumerics with spaces;
  2. split on whitespace runs and trim the pieces;
  3. keep lengths 3 to 19;
  4. capitalise;
  5. drop packaging words.

  It then picks one candidate name:
  1. the first word in the priority list;
  2. else the first word followed by a dosage word such as "650mg", joined to
     the word after its first occurrence;
  3. else the first word.

  The model is the `LabelScan` module. `LabelScanExamples` works through
  concrete labels.
- **Regex escaping.** `escapeRegex` puts a backslash before every regular
  expression metacharacter. The model is the `RegexEscape` module.
- **Application state.** The three module-level arrays (`medicines`,
  `favorites`, `searchHistory`) are the fields of the class `App.AppState`.
  The handlers that change them are its methods. Each method is proved
  against the functions above.

`Wrappers`, `Seqs` and `Text` hold the JavaScript primitives the code relies
on:
- `Option`;
- `filter`, `map` and `find` (`indexOf` is `LabelScan.IndexOf`);
- JavaScript whitespace, ASCII `toLowerCase`/`toUpperCase`, `trim` and
  `includes`.

Behaviour of `app.js` the model keeps as written:
- **Crocin is a priority word.** Crocin is itself in `medicinePriorityList`
  (app.js:494), so "Crocin 650mg" reads as "Crocin"
  (`LabelScanExamples.CrocinIsPriority`). The dosage rule shows only on a
  name outside the list (`LabelScanExamples.ReadDosedName`).
- **Alias search.** The alias tier runs only after the exact-name tier has
  scanned the whole catalog (app.js:154-161), so an alias finds its entry
  only when no entry at all is named like it. An earlier entry with the
  same alias also wins (`Catalog.ResolveAlias`).
- **Repeated base word.** The dosage rule appends `words[indexOf(base) + 1]`
  (app.js:555). When the base word occurs earlier in the list, the appended
  word is not the dosage (`LabelScan.CandidateRepeatedBase`).
- **Empty words.** Each rule's word counts only when it is truthy
  (app.js:550-559). In the handler's own word list every word is non-empty,
  so a non-empty list always gives a candidate (`LabelScan.PickFromWords`).

## Model

| member | source | states |
|---|---|---|
| Catalog.SearchKey | app.js:147 | the lower-cased, trimmed query; `SearchKeyOfTrimmed` states that trimming first does not change it |
| Catalog.Matches | app.js:154-168 | each tier's test of an entry against the key; `ExactHitIsPartial` states that an exact hit is a substring hit |
| Catalog.FirstHit | app.js:154-168 | each tier's `find`; `FirstHitIs` states that it returns the first hit in catalog order |
| Catalog.Resolve | app.js:146-176 | the search goes home exactly when the lower-cased, trimmed query is empty; a found medicine is an entry of the catalog |
| Catalog.ResolveKey | app.js:148-175 | on the normalised key: home exactly for the empty key; a found medicine is a catalog entry |
| Catalog.FirstHitIs | app.js:154-168 | each tier's `find` returns the index of its first hit in catalog order, and returns nothing exactly when no entry is hit |
| Catalog.ExactHitIsPartial | app.js:154-168 | an exact name or alias hit is also a substring hit of the third tier |
| Catalog.ResolveTierPrecedence | app.js:154-172 | when `t` is the first tier with any hit and entry `i` is its first hit, the search shows entry `i` |
| Catalog.ResolveFoundIsFirstHit | app.js:154-172 | whatever the search shows is the first hit of the first tier that has a hit |
| Catalog.KeyFoundIsFirstHit | app.js:154-172 | the same, stated on the normalised key |
| Catalog.ResolveNotFound | app.js:147-175 | the "No medicine found" alert comes exactly when the key is non-empty and no name or alias of any entry contains it |
| Catalog.SearchKeyOfTrimmed | app.js:255 | trimming the input before the search does not change the search key |
| Catalog.ResolveTrimmed | app.js:253-262 | searching the trimmed input (the Enter key) gives the same outcome as searching the input as typed |
| Catalog.ResolveBlank | app.js:255-259 | an input that trims to nothing goes to the welcome screen |
| Catalog.ResolveOwnName | app.js:147-155 | a trimmed, non-empty name finds its own entry unless an earlier entry has the same name up to case |
| Catalog.ResolveAlias | app.js:157-162 | a trimmed alias finds its entry when no entry is named like it and no earlier entry has the same alias |
| Suggestions.Suggest | app.js:179-216 | the dropdown is hidden exactly for an empty key or no name hits; otherwise it lists a prefix of the name hits, between 1 and 6 rows, each a catalog entry whose name contains the key, and shows "more" exactly when there were more than 6 hits |
| Suggestions.SuggestKeepsCatalogOrder | app.js:188-194 | the rows keep catalog order |
| Suggestions.SuggestCompleteWithoutMore | app.js:188-216 | without a "more" row, every entry whose name contains the key is listed |
| Suggestions.NameHits | app.js:188 | the entries whose name contains the key, in catalog order; `Suggest` states what is listed of them and `NameHitsIgnoreAliases` that aliases play no part |
| Suggestions.NameHitsIgnoreAliases | app.js:188 | the name filter sees only names: same names in the same order give hits with the same names |
| Suggestions.SuggestIgnoresAliases | app.js:181-216 | aliases play no part: catalogs with the same names give the same rows and flag |
| History.AfterAdd | app.js:101-109 | the list after `addToHistory`; its properties are stated by `AddPutsNameFirst`, `AddKeepsOrder`, `AddBounded`, `AddDropsOnlyDuplicatesOrOldest`, `AddEvictsOldest`, `AddSameFoldedTwice` and `AddWhitespaceNameRecordsEmpty` |
| History.Pushed | app.js:105-107 | the trimmed name in front of the survivors; `KeptAfterPush` states that filtering again by its key gives the survivors back |
| History.Kept | app.js:105-107 | the filter and the `pop`; `KeptDiffers` and `SurvivorStays` state which entries survive and in what order |
| History.KeptDiffers | app.js:105-107 | the surviving older entries differ from the new name up to case and keep their order |
| History.AddPutsNameFirst | app.js:101-109 | after adding a non-empty name, the trimmed name is first and no other entry equals it up to case |
| History.AddKeepsOrder | app.js:105-107 | the other entries keep their relative order |
| History.AddBounded | app.js:107 | a list of at most ten entries stays at most ten long |
| History.AddDropsOnlyDuplicatesOrOldest | app.js:105-107 | an entry that differs from the new name up to case is lost only when the filtered list already held ten entries and it was the last of them, the one `pop` removes |
| History.SurvivorStays | app.js:105-107 | the same for the filter-and-pop on any key: an entry differing from the key survives unless it is the last of ten or more survivors |
| History.AddEvictsOldest | app.js:105-107 | adding an eleventh distinct name to a full list drops exactly the oldest entry |
| History.AddSameFoldedTwice | app.js:101-109 | adding a name and then one equal to it up to case is the same as adding only the second, so adding a name twice is adding it once |
| History.KeptAfterPush | app.js:105-107 | filtering again by the key just pushed gives back the same survivors |
| History.AddWhitespaceNameRecordsEmpty | app.js:102-104 | the emptiness test comes before the trim, so an all-whitespace name is recorded as "" |
| History.Recent | app.js:111-113 | `slice(0, limit)` is a prefix of the history of length min(limit, length), and for a negative limit the length less \|limit\|, clamped at 0 |
| History.RecentShowsLatest | app.js:101-113 | right after an add, any non-empty preview starts with the new name and repeats it nowhere up to case |
| Favorites.HasName | app.js:295 | `some` favorite has the name; `FindByName` returns something exactly when it holds |
| Favorites.Toggled | app.js:353-361 | the favorites after `toggleFavorite`; `ToggleFlipsMembership`, `ToggleKeepsOthers`, `ToggleRemovalKeepsOrder`, `ToggleAddAppends` and `ToggleTwiceRestores` state its properties |
| Favorites.FindByName | app.js:354 | `find` by name returns something exactly when some favorite has the name, and then it returns the first such entry |
| Favorites.FullRecord | app.js:376 | the record shown has the favorite's name; when the catalog has that name it is the first catalog entry with it, else the stored copy |
| Favorites.FullRecordPrefersCatalog | app.js:376-380 | the unique-name case of `FullRecord`: when exactly one catalog entry has the name, that entry is opened |
| Favorites.ToggleFlipsMembership | app.js:353-363 | toggling flips whether some favorite has the medicine's name |
| Favorites.ToggleKeepsOthers | app.js:355-360 | entries under any other name are neither added nor removed |
| Favorites.ToggleRemovalKeepsOrder | app.js:356 | a removal drops every entry with the name and nothing else: each other entry stays as many times as it was there, in order, and the list shrinks by the number of entries with the name |
| Favorites.NameSplit | app.js:354-356 | the entries with the name and those without it together make up the whole list |
| Favorites.ToggleAddAppends | app.js:359 | an addition appends the medicine after all existing entries |
| Favorites.ToggleTwiceRestores | app.js:353-363 | adding a medicine and toggling it again restores the list |
| Seqs.Filter | app.js:105 | JavaScript `filter`: no longer than its input, and an element is in the result exactly when it is in the input and passes the test; `FilterIsSubsequence` adds that order is kept and `FilterCounts` how many copies stay |
| Seqs.FilterCounts | app.js:105 | `filter` keeps every copy of an element that passes and no copy of one that fails |
| Seqs.Map | app.js:542-544 | JavaScript `map`: same length, and each element is the function of the input element at the same index |
| Seqs.FirstIndex | app.js:154 | JavaScript `find`/`findIndex`: the index found is in range, its element passes, no earlier one does, and nothing is found exactly when no element passes |
| Text.IsSpace | app.js:104 | JavaScript's WhiteSpace and LineTerminator characters, what `trim` and `\s` treat as space; `TrimEmpty` and `TrimStart`/`TrimEnd` state what `trim` does with them |
| Text.Lower | app.js:147 | `toLowerCase` on ASCII letters; `TrimLowerCommute` states that it commutes with `trim` |
| Text.TrimStart | app.js:104 | the leading-whitespace half of `trim`: a suffix of the input that does not start with whitespace, every removed character being whitespace |
| Text.TrimEnd | app.js:104 | the trailing-whitespace half of `trim`: a prefix of the input that does not end with whitespace, every removed character being whitespace |
| Text.Trim | app.js:104 | `trim`: by the contracts of `TrimStart` and `TrimEnd` it removes exactly the whitespace at both ends and nothing else; `TrimTwice` states that it is idempotent and `TrimEmpty` when it gives "" |
| Text.Contains | app.js:166 | `includes`; `ContainsIffOccurs` states its meaning |
| Text.ContainsIffOccurs | app.js:166 | `includes` holds exactly when the needle occurs at some position |
| Text.TrimLowerCommute | app.js:181-188 | trimming then lower-casing equals lower-casing then trimming |
| Text.TrimTwice | app.js:255 | `trim` is idempotent |
| Text.TrimEmpty | app.js:531 | `trim` gives "" exactly on all-whitespace text |
| LabelScan.Sanitize | app.js:540 | every character outside `[A-Za-z0-9\s]` becomes a space; `LabelScanExamples.SanitizeKeepsClean` states that clean text passes unchanged |
| LabelScan.SplitFrom | app.js:541 | the split on whitespace runs, with the piece read so far; `SplitPiecesAreWordChars` states what its pieces hold |
| LabelScan.SplitOnSpaces | app.js:541 | `split(/\s+/)`; `LabelScanExamples.SplitJoined` states that it gives back words joined by single spaces |
| LabelScan.Tokens | app.js:540-542 | clean-up, split and trim of the pieces; `TokensAreWordChars` states that every token has only letters and digits |
| LabelScan.Capitalize | app.js:544 | first character upper-cased, the rest lower-cased; `CapitalizeShape` and `CapitalizeCanonical` state its properties |
| LabelScan.Words | app.js:539-545 | the handler's word list; `WordsInvariant` and `WordsKeepSourceOrder` state its properties |
| LabelScan.HasDoseMarker | app.js:554 | the test `/\d+mg/i`; `DoseMarkerMeaning` states its meaning |
| LabelScan.IndexOf | app.js:555 | `indexOf`; `CandidateDoseAdjacent` and `CandidateRepeatedBase` state what it finds for the dosage rule |
| LabelScan.SplitPiecesAreWordChars | app.js:540-541 | on cleaned text every piece of the split has only letters and digits |
| LabelScan.TokensAreWordChars | app.js:540-542 | every token has only ASCII letters and digits |
| LabelScan.CapitalizeShape | app.js:544 | capitalising a word of letters and digits keeps its length and characters' class; the first character is then not a lower-case letter and no later one is upper-case |
| LabelScan.CapitalizeCanonical | app.js:544 | capitalising a capitalised word changes nothing |
| LabelScan.WordsInvariant | app.js:539-545 | every word has length 3 to 19, only letters and digits, is capitalised, and is not a packaging word |
| LabelScan.WordsKeepSourceOrder | app.js:539-545 | the words keep the order of the tokens they come from |
| LabelScan.DoseMarkerMeaning | app.js:554 | `/\d+mg/i` matches exactly when a digit is followed by "mg" in any case |
| LabelScan.FirstDoseBase | app.js:554 | the first index whose next word (or "" past the end) carries a dosage marker |
| LabelScan.PickCandidate | app.js:550-559 | a candidate is non-empty and extends one of the words; when every word is non-empty there is a candidate exactly when there are words |
| LabelScan.DoseCandidate | app.js:553-556 | the dosage rule's candidate is non-empty and extends one of the words |
| LabelScan.CandidatePriority | app.js:550 | the first priority-list word wins |
| LabelScan.CandidateDose | app.js:553-556 | without priority words, the first dosage base is joined to the word after its first occurrence, which always exists |
| LabelScan.CandidateDoseAdjacent | app.js:553-556 | when the base word has no earlier occurrence, the dosage word itself is appended |
| LabelScan.CandidateEmptyDoseBase | app.js:554-559 | an empty dosage base is falsy and the first word is taken instead |
| LabelScan.CandidateFallback | app.js:559 | with neither rule applying, the first word is the candidate when it is non-empty |
| LabelScan.CandidateRepeatedBase | app.js:555 | with `indexOf`, a repeated base word takes the word after its first occurrence, not the dosage |
| LabelScan.PickFromWords | app.js:550-566 | on the handler's own word list, no candidate exactly when there are no words, and a candidate has at least 3 characters |
| LabelScan.ReadLabel | app.js:530-566 | "No readable text" exactly for all-whitespace text, "No valid medicine name" exactly for readable text without words, else a candidate of at least 3 characters |
| LabelScanExamples.SplitJoined | app.js:541 | splitting words joined by single spaces gives the words back |
| LabelScanExamples.TokensOfJoined | app.js:539-542 | the tokens of a text of capitalised words are those words |
| LabelScanExamples.WordsOfJoined | app.js:539-545 | the word list of such a text is its words less the wrong lengths and the packaging words |
| LabelScanExamples.LengthFilterBounds | app.js:543 | tokens of 2 and 20 characters go; tokens of 3 and 19 characters stay |
| LabelScanExamples.ReadParacetamolStrip | app.js:539-566 | "Paracetamol 500 Mg Tablet" reads as the candidate "Paracetamol" |
| LabelScanExamples.ReadDosedName | app.js:539-566 | "Zerodol 650mg Suspension" reads as the candidate "Zerodol 650mg" |
| LabelScanExamples.CrocinIsPriority | app.js:492-495 | Crocin is in the priority list, so "Crocin" wins over "Crocin 650mg" |
| LabelScanExamples.ReadFirstWordFallback | app.js:539-566 | "Generic Brand" reads as the candidate "Generic" |
| LabelScanExamples.ReadPackagingOnly | app.js:539-566 | "Tablet Strip Each" gives no valid name |
| RegexEscape.Escape | app.js:53-55 | the output is as long as the input plus one backslash per metacharacter |
| RegexEscape.ReadEscape | app.js:53-55 | the escaped query reads, as a pattern, as exactly its own characters, each literal |
| RegexEscape.UnescapeEscape | app.js:53-55 | removing the inserted backslashes gives the query back |
| RegexEscape.EscapePlain | app.js:53-55 | the query is used unchanged exactly when it has no metacharacters |
| App.AppState.constructor | app.js:6-8 | the catalog starts empty; favorites and history are as stored, or empty when nothing is stored |
| App.AppState.LoadCatalog | app.js:89-98 | a loaded list replaces the catalog; a failed load leaves it as it was |
| App.AppState.AddToHistory | app.js:101-109 | the history becomes the specified list after the add, starts with the trimmed name, and stays within ten entries |
| App.AppState.GetRecentHistory | app.js:111-113 | the preview is the `slice` prefix of the history |
| App.AppState.ClearHistory | app.js:135-138 | the "Clear recent" button empties the history |
| App.AppState.ClearAllHistory | app.js:450-452 | the "Clear All" button empties the history when the dialog is confirmed and leaves it as it was otherwise |
| App.AppState.ShowMedicineDetails | app.js:286-296 | the heart is filled exactly when a favorite has the medicine's name, and the name is added to the history |
| App.AppState.ToggleFavorite | app.js:353-363 | the favorites become the toggled list, and membership by name flips |
| App.AppState.PerformSearch | app.js:146-176 | the outcome is the tiered search over the current catalog; the history changes only when a medicine is shown, and then by adding its name |
| App.AppState.SearchMedicine | app.js:66-70 | an empty name does nothing; otherwise the same as the search |
| App.AppState.SubmitSearch | app.js:253-262 | the Enter key gives the outcome of searching the input as typed, with the same history change |
| App.AppState.OpenFavorite | app.js:376-380 | a favorites card opens the catalog's record of the favorite and records its name |
| App.AppState.ScanLabel | app.js:530-566 | the label reading decides whether a search happens; a candidate is searched and recorded exactly as a typed search |

## Left out

- Rendering is not modelled: the DOM, `innerHTML` templates, navigation, the
  dropdown's visibility timers and the clear and mic buttons' display. What a
  handler computes and how the state changes are modelled; what is drawn is
  not.
- The highlighting in suggestions (`new RegExp(...)` and `replace`) is not
  modelled. It depends on the JavaScript regular-expression engine. Only the
  escaping is modelled: `RegexEscape.Read` gives the reading of a pattern
  that the highlighting relies on.
- Local storage and JSON are not modelled. The constructor takes the parsed
  stored lists as parameters, and saving is not modelled.
- Network calls are not modelled. The `fetch` of `medicines.json` becomes
  `LoadCatalog`'s parameter. The OCR.space request, its response unpacking
  and its failure alert are outside the model: `ScanLabel` takes the
  recognised text.
- Speech recognition and the OCR button's disable/re-enable are not
  modelled. They are asynchronous browser APIs.
- The `sideEffectIcons` table is not modelled. It is used only for display.
- Case folding and `toLowerCase`/`toUpperCase` are modelled on ASCII letters
  only. Other letters are unchanged; Unicode case mapping is not modelled.
  Whitespace is the full set of JavaScript whitespace and line terminators.
- Characters are Dafny `char`s, not UTF-16 code units, so surrogate pairs are
  not modelled.
- Null and undefined values (`query || ""`, `m.otherNames || []`, a missing
  medicine) are not modelled. They are empty strings or sequences, or
  arguments that are always present at the modelled call sites.
- Alerts and the welcome screen appear only as outcome values: `Home`,
  `NotFound`, `NoReadableText` and `NoValidName`.
- Records of a medicine are compared as whole values, not by object
  identity.
- The confirmation dialog of "Clear All" is not modelled: its answer is
  `ClearAllHistory`'s parameter.
- Resolving the same query twice gives the same outcome. `Resolve` is a
  function, so this needs no lemma.
