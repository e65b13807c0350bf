/** The recent-search list kept by `addToHistory`: the trimmed name goes to
    the front, entries equal to it up to case are removed, and one entry is
    popped from the end when the list grows past ten. */
module History {
  import opened Seqs
  import opened Text

  const MaxHistory: nat := 10

  /** The filter test of `addToHistory`, given the lower-cased new name:
      keep the entries whose lower-cased form differs from it. */
  function DiffersFolded(key: string): string -> bool {
    x => Lower(x) != key
  }

  /** The list after `addToHistory(medName)`. The emptiness test comes before
      the trim, so an all-whitespace name is recorded as "". */
  function AfterAdd(history: seq<string>, medName: string): seq<string> {
    if medName == [] then history else Pushed(history, Trim(medName))
  }

  /** `name` in front of the older entries that survive. */
  function Pushed(history: seq<string>, name: string): seq<string> {
    [name] + Kept(history, Lower(name))
  }

  /** The entries whose lower-cased form differs from `key`, less the last
      one when together with the new name they would be more than ten. */
  function Kept(history: seq<string>, key: string): seq<string> {
    var kept := Filter(history, DiffersFolded(key));
    if |kept| + 1 > MaxHistory then kept[..|kept| - 1] else kept
  }

  /** Every surviving entry differs from the key up to case, and they keep
      their order. */
  lemma KeptDiffers(history: seq<string>, key: string)
    ensures forall i :: 0 <= i < |Kept(history, key)| ==> Lower(Kept(history, key)[i]) != key
    ensures IsSubsequence(Kept(history, key), history)
  {
    var kept := Filter(history, DiffersFolded(key));
    var t := Kept(history, key);
    forall i | 0 <= i < |t| ensures Lower(t[i]) != key {
      assert t[i] == kept[i];
      assert kept[i] in kept;
    }
    FilterIsSubsequence(history, DiffersFolded(key));
    SubsequencePrefix(kept, history, |t|);
    assert t == kept[..|t|];
  }

  /** The trimmed name is first, and no other entry equals it up to case. */
  lemma AddPutsNameFirst(history: seq<string>, medName: string)
    requires medName != []
    ensures |AfterAdd(history, medName)| >= 1
    ensures AfterAdd(history, medName)[0] == Trim(medName)
    ensures forall i :: 1 <= i < |AfterAdd(history, medName)| ==>
      Lower(AfterAdd(history, medName)[i]) != Lower(Trim(medName))
  {
    var name := Trim(medName);
    var t := Kept(history, Lower(name));
    KeptDiffers(history, Lower(name));
    var r := AfterAdd(history, medName);
    assert r == [name] + t;
    forall i | 1 <= i < |r| ensures Lower(r[i]) != Lower(name) {
      assert r[i] == t[i - 1];
    }
  }

  /** The other entries keep their relative order. */
  lemma AddKeepsOrder(history: seq<string>, medName: string)
    requires medName != []
    ensures IsSubsequence(AfterAdd(history, medName)[1..], history)
  {
    var name := Trim(medName);
    KeptDiffers(history, Lower(name));
    assert AfterAdd(history, medName)[1..] == Kept(history, Lower(name));
  }

  /** A list of at most ten entries stays at most ten entries long. */
  lemma AddBounded(history: seq<string>, medName: string)
    requires |history| <= MaxHistory
    ensures |AfterAdd(history, medName)| <= MaxHistory
  {
  }

  /** An entry differing from the new name (up to case) is lost only when
      the list was full and it was the one popped from the end: the last of
      the entries that survived the filter. */
  lemma AddDropsOnlyDuplicatesOrOldest(history: seq<string>, medName: string, x: string)
    requires medName != [] && x in history && Lower(x) != Lower(Trim(medName))
    ensures var kept := Filter(history, DiffersFolded(Lower(Trim(medName))));
      x in AfterAdd(history, medName) || (|kept| >= MaxHistory && x == kept[|kept| - 1])
  {
    SurvivorStays(history, Lower(Trim(medName)), x);
  }

  /** The same for the survivors of a key: an entry differing from it is
      kept unless it is the last one and the last one is popped. */
  lemma SurvivorStays(history: seq<string>, key: string, x: string)
    requires x in history && Lower(x) != key
    ensures var kept := Filter(history, DiffersFolded(key));
      x in Kept(history, key) || (|kept| >= MaxHistory && x == kept[|kept| - 1])
  {
    var kept := Filter(history, DiffersFolded(key));
    assert x in kept;
    if |kept| + 1 > MaxHistory {
      var k :| 0 <= k < |kept| && kept[k] == x;
      if k < |kept| - 1 {
        assert x == Kept(history, key)[k];
      }
    }
  }

  /** Adding an eleventh distinct name to a full list drops the oldest. */
  lemma AddEvictsOldest(history: seq<string>, medName: string)
    requires |history| == MaxHistory && medName != []
    requires forall i :: 0 <= i < |history| ==> Lower(history[i]) != Lower(Trim(medName))
    ensures AfterAdd(history, medName) == [Trim(medName)] + history[..MaxHistory - 1]
  {
    var name := Trim(medName);
    FilterKeepsAll(history, DiffersFolded(Lower(name)));
  }

  /** Adding a second name equal to the first up to case leaves one entry,
      at the front, exactly as if only the second had been added; in
      particular adding the same name twice is adding it once. */
  lemma AddSameFoldedTwice(history: seq<string>, a: string, b: string)
    requires |history| <= MaxHistory
    requires a != [] && b != [] && Lower(Trim(a)) == Lower(Trim(b))
    ensures AfterAdd(AfterAdd(history, a), b) == AfterAdd(history, b)
  {
    KeptAfterPush(history, Trim(a), Lower(Trim(b)));
  }

  /** Pushing a name whose key is `key` and then keeping by `key` again
      gives back the first survivors. */
  lemma KeptAfterPush(history: seq<string>, name: string, key: string)
    requires |history| <= MaxHistory && Lower(name) == key
    ensures Kept(Pushed(history, name), key) == Kept(history, key)
  {
    var t := Kept(history, key);
    var p := DiffersFolded(key);
    assert |t| + 1 <= MaxHistory;
    assert Pushed(history, name) == [name] + t;
    assert ([name] + t)[1..] == t;
    assert !p(name);
    assert Filter([name] + t, p) == Filter(t, p);
    KeptDiffers(history, key);
    FilterKeepsAll(t, p);
  }

  /** `(searchHistory || []).slice(0, limit)`: `slice` counts a negative end
      from the back and clamps the end to the list. */
  function Recent(history: seq<string>, limit: int): (r: seq<string>)
    ensures r <= history
    ensures 0 <= limit ==> |r| == (if limit < |history| then limit else |history|)
    ensures limit < 0 ==> |r| == (if -limit < |history| then |history| + limit else 0)
  {
    var n := |history|;
    var end := if limit < 0 then (if n + limit > 0 then n + limit else 0)
      else if limit < n then limit else n;
    history[..end]
  }

  /** Right after a name is added, any preview of one or more entries opens
      with it, and the preview never shows a name twice up to case. */
  lemma RecentShowsLatest(history: seq<string>, medName: string, limit: int)
    requires medName != [] && limit >= 1
    ensures Recent(AfterAdd(history, medName), limit) != []
    ensures Recent(AfterAdd(history, medName), limit)[0] == Trim(medName)
    ensures forall i :: 1 <= i < |Recent(AfterAdd(history, medName), limit)| ==>
      Lower(Recent(AfterAdd(history, medName), limit)[i]) != Lower(Trim(medName))
  {
    var r := Recent(AfterAdd(history, medName), limit);
    AddPutsNameFirst(history, medName);
    forall i | 1 <= i < |r|
      ensures Lower(r[i]) != Lower(Trim(medName))
    {
      assert r[i] == AfterAdd(history, medName)[i];
    }
  }

  /** The emptiness test precedes the trim: a name made only of whitespace
      is recorded as the empty string. */
  lemma AddWhitespaceNameRecordsEmpty(history: seq<string>, medName: string)
    requires medName != []
    requires forall i :: 0 <= i < |medName| ==> IsSpace(medName[i])
    ensures AfterAdd(history, medName)[0] == ""
  {
    TrimEmpty(medName);
    AddPutsNameFirst(history, medName);
  }
}
