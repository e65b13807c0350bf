/** The state app.js keeps in three module-level arrays (the catalog loaded
    from `medicines.json`, the favorites and the search history read from
    local storage) and the handlers that change it. Rendering, storage and
    the network are not modelled: what the handlers compute and how the
    arrays change is. */
module App {
  import opened Wrappers
  import opened Seqs
  import opened Text
  import opened Catalog
  import opened History
  import opened Favorites
  import opened LabelScan

  /** `value || []` for an array read back from storage. */
  function OrEmpty<T>(stored: Option<seq<T>>): seq<T> {
    match stored
    case Some(v) => v
    case None => []
  }

  class AppState {
    var medicines: seq<Medicine>
    var favorites: seq<Medicine>
    var searchHistory: seq<string>

    /** Start-up: no catalog yet, favorites and history as stored (a
        missing or null entry is an empty list). */
    constructor(storedFavorites: Option<seq<Medicine>>, storedHistory: Option<seq<string>>)
      ensures medicines == []
      ensures favorites == OrEmpty(storedFavorites)
      ensures searchHistory == OrEmpty(storedHistory)
    {
      medicines := [];
      favorites := OrEmpty(storedFavorites);
      searchHistory := OrEmpty(storedHistory);
    }

    /** The outcome of fetching `medicines.json`: the parsed list replaces
        the catalog; a failed fetch leaves it as it was. */
    method LoadCatalog(data: Option<seq<Medicine>>)
      modifies this`medicines
      ensures data.Some? ==> medicines == data.value
      ensures data.None? ==> medicines == old(medicines)
    {
      if data.Some? {
        medicines := data.value;
      }
    }

    /** `addToHistory`, step by step: filter, unshift, pop. */
    method AddToHistory(medName: string)
      modifies this`searchHistory
      ensures searchHistory == AfterAdd(old(searchHistory), medName)
      ensures medName != [] ==> searchHistory != [] && searchHistory[0] == Trim(medName)
      ensures |old(searchHistory)| <= MaxHistory ==> |searchHistory| <= MaxHistory
    {
      if medName == [] {
        return;
      }
      var name := Trim(medName);
      var kept := Filter(searchHistory, DiffersFolded(Lower(name)));
      searchHistory := [name] + kept;
      if |searchHistory| > MaxHistory {
        assert searchHistory[..|searchHistory| - 1] == [name] + kept[..|kept| - 1];
        searchHistory := searchHistory[..|searchHistory| - 1];
      }
    }

    /** `getRecentHistory(limit)`: the newest `limit` entries. */
    method GetRecentHistory(limit: int) returns (recent: seq<string>)
      ensures recent == Recent(searchHistory, limit)
      ensures recent <= searchHistory
    {
      recent := Recent(searchHistory, limit);
    }

    /** The "Clear recent" button under the history preview. */
    method ClearHistory()
      modifies this`searchHistory
      ensures searchHistory == []
    {
      searchHistory := [];
    }

    /** The "Clear All" button of the history page: the list is emptied
        only when the user confirms the dialog, whose answer is the
        parameter. */
    method ClearAllHistory(confirmed: bool)
      modifies this`searchHistory
      ensures confirmed ==> searchHistory == []
      ensures !confirmed ==> searchHistory == old(searchHistory)
    {
      if !confirmed {
        return;
      }
      ClearHistory();
    }

    /** `showMedicineDetails(medicine)`: whether the heart is shown filled,
        and the medicine's name recorded in the history. */
    method ShowMedicineDetails(medicine: Medicine) returns (isFav: bool)
      modifies this`searchHistory
      ensures isFav <==> HasName(favorites, medicine.name)
      ensures searchHistory == AfterAdd(old(searchHistory), medicine.name)
    {
      isFav := FindByName(favorites, medicine.name).Some?;
      AddToHistory(medicine.name);
    }

    /** `toggleFavorite(medicine)`: remove every favorite with the name, or
        append the medicine when there is none. */
    method ToggleFavorite(medicine: Medicine)
      modifies this`favorites
      ensures favorites == Toggled(old(favorites), medicine)
      ensures HasName(favorites, medicine.name) <==> !HasName(old(favorites), medicine.name)
    {
      var existing := FindByName(favorites, medicine.name);
      if existing.Some? {
        favorites := Filter(favorites, NamedOtherwise(medicine.name));
      } else {
        favorites := favorites + [medicine];
      }
      ToggleFlipsMembership(old(favorites), medicine);
    }

    /** `performSearch(query)`: the three tiers, then the details of the hit
        (which records it in the history) or the "not found" alert. */
    method PerformSearch(query: string) returns (outcome: SearchOutcome)
      modifies this`searchHistory
      ensures outcome == Resolve(query, medicines)
      ensures outcome.Found? ==> searchHistory == AfterAdd(old(searchHistory), outcome.medicine.name)
      ensures !outcome.Found? ==> searchHistory == old(searchHistory)
    {
      var q := SearchKey(query);
      if q == [] {
        return Home;
      }
      var matched := FirstHit(medicines, ExactName, q);
      if matched.None? {
        matched := FirstHit(medicines, ExactAlias, q);
      }
      if matched.None? {
        matched := FirstHit(medicines, Partial, q);
      }
      if matched.Some? {
        outcome := Found(medicines[matched.value]);
        var _ := ShowMedicineDetails(outcome.medicine);
      } else {
        outcome := NotFound;
      }
    }

    /** `searchMedicine(name)`, used by the history entries: an empty name
        does nothing at all. */
    method SearchMedicine(name: string) returns (outcome: Option<SearchOutcome>)
      modifies this`searchHistory
      ensures name == [] ==> outcome.None? && searchHistory == old(searchHistory)
      ensures name != [] ==> outcome == Some(Resolve(name, medicines))
      ensures outcome.Some? && outcome.value.Found? ==>
        searchHistory == AfterAdd(old(searchHistory), outcome.value.medicine.name)
      ensures outcome.Some? && !outcome.value.Found? ==> searchHistory == old(searchHistory)
    {
      if name == [] {
        return None;
      }
      var r := PerformSearch(name);
      outcome := Some(r);
    }

    /** The Enter key: the trimmed input is searched, an empty one goes
        home. Trimming first gives the same outcome as searching the raw
        input. */
    method SubmitSearch(input: string) returns (outcome: SearchOutcome)
      modifies this`searchHistory
      ensures outcome == Resolve(input, medicines)
      ensures outcome.Found? ==> searchHistory == AfterAdd(old(searchHistory), outcome.medicine.name)
      ensures !outcome.Found? ==> searchHistory == old(searchHistory)
    {
      var q := Trim(input);
      if q == [] {
        ResolveBlank(input, medicines);
        return Home;
      }
      outcome := PerformSearch(q);
      ResolveTrimmed(input, medicines);
    }

    /** A card of the favorites page: the catalog's record of the favorite
        (or the stored copy) is shown. */
    method OpenFavorite(med: Medicine) returns (shown: Medicine, isFav: bool)
      modifies this`searchHistory
      ensures shown == FullRecord(medicines, med) && shown.name == med.name
      ensures isFav <==> HasName(favorites, med.name)
      ensures searchHistory == AfterAdd(old(searchHistory), med.name)
    {
      shown := FullRecord(medicines, med);
      isFav := ShowMedicineDetails(shown);
    }

    /** The OCR handler once the service's text is in: the label is read and
        a candidate name, if any, is searched. */
    method ScanLabel(text: string) returns (reading: LabelReading, outcome: Option<SearchOutcome>)
      modifies this`searchHistory
      ensures reading == ReadLabel(text)
      ensures outcome.Some? <==> reading.Candidate?
      ensures reading.Candidate? ==> outcome == Some(Resolve(reading.name, medicines))
      ensures outcome.Some? && outcome.value.Found? ==>
        searchHistory == AfterAdd(old(searchHistory), outcome.value.medicine.name)
      ensures !(outcome.Some? && outcome.value.Found?) ==> searchHistory == old(searchHistory)
    {
      reading := ReadLabel(text);
      if reading.Candidate? {
        var r := PerformSearch(reading.name);
        outcome := Some(r);
      } else {
        outcome := None;
      }
    }
  }
}
