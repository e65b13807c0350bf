/** The favorites list changed by `toggleFavorite`: membership is decided by
    name; a medicine whose name is present is removed (every entry with that
    name), otherwise it is appended. */
module Favorites {
  import opened Wrappers
  import opened Seqs
  import opened Catalog

  /** `favorites.some(f => f.name === name)`. */
  predicate HasName(favs: seq<Medicine>, name: string) {
    exists f :: f in favs && f.name == name
  }

  /** The test `f => f.name === name`. */
  function NamedAs(name: string): Medicine -> bool {
    (f: Medicine) => f.name == name
  }

  /** The test `f => f.name !== name`. */
  function NamedOtherwise(name: string): Medicine -> bool {
    (f: Medicine) => f.name != name
  }

  /** `s.find(f => f.name === name)`: the first entry with that name. */
  function FindByName(s: seq<Medicine>, name: string): (r: Option<Medicine>)
    ensures r.Some? <==> HasName(s, name)
    ensures r.Some? ==> exists i :: 0 <= i < |s| && s[i] == r.value && s[i].name == name
                               && forall j :: 0 <= j < i ==> s[j].name != name
  {
    match FirstIndex(s, NamedAs(name))
    case Some(i) => Some(s[i])
    case None => None
  }

  /** `medicines.find(x => x.name === med.name) || med`: the catalog's record
      of a stored favorite, or the stored copy when the catalog has none. */
  function FullRecord(catalog: seq<Medicine>, med: Medicine): (r: Medicine)
    ensures r.name == med.name
    ensures HasName(catalog, med.name) ==> exists i :: 0 <= i < |catalog| && catalog[i] == r
                                                && forall j :: 0 <= j < i ==> catalog[j].name != med.name
    ensures !HasName(catalog, med.name) ==> r == med
  {
    match FindByName(catalog, med.name)
    case Some(full) => full
    case None => med
  }

  /** The unique-name case of `FullRecord`: a favorite whose name only one
      catalog entry has opens that entry, not the copy stored with the
      favorites. */
  lemma FullRecordPrefersCatalog(catalog: seq<Medicine>, med: Medicine, i: nat)
    requires i < |catalog| && catalog[i].name == med.name
    requires forall j :: 0 <= j < |catalog| && j != i ==> catalog[j].name != med.name
    ensures FullRecord(catalog, med) == catalog[i]
  {
    assert catalog[i] in catalog;
  }

  /** The list after `toggleFavorite(m)`. */
  function Toggled(favs: seq<Medicine>, m: Medicine): seq<Medicine> {
    if HasName(favs, m.name) then Filter(favs, NamedOtherwise(m.name))
    else favs + [m]
  }

  /** Toggling flips whether the name is a favorite. */
  lemma ToggleFlipsMembership(favs: seq<Medicine>, m: Medicine)
    ensures HasName(Toggled(favs, m), m.name) <==> !HasName(favs, m.name)
  {
    if !HasName(favs, m.name) {
      assert m in Toggled(favs, m);
    }
  }

  /** Entries under any other name are untouched. */
  lemma ToggleKeepsOthers(favs: seq<Medicine>, m: Medicine, x: Medicine)
    requires x.name != m.name
    ensures x in Toggled(favs, m) <==> x in favs
  {
  }

  /** Removing drops exactly the entries with the name: every other entry
      stays, as many times as it was there, in its order. */
  lemma ToggleRemovalKeepsOrder(favs: seq<Medicine>, m: Medicine)
    requires HasName(favs, m.name)
    ensures IsSubsequence(Toggled(favs, m), favs)
    ensures forall f :: f in Toggled(favs, m) ==> f.name != m.name
    ensures forall f: Medicine :: f.name != m.name ==> multiset(Toggled(favs, m))[f] == multiset(favs)[f]
    ensures |Toggled(favs, m)| + |Filter(favs, NamedAs(m.name))| == |favs|
  {
    FilterIsSubsequence(favs, NamedOtherwise(m.name));
    FilterCounts(favs, NamedOtherwise(m.name));
    NameSplit(favs, m.name);
  }

  /** Every entry either has the name or not. */
  lemma {:induction false} NameSplit(favs: seq<Medicine>, name: string)
    ensures |Filter(favs, NamedOtherwise(name))| + |Filter(favs, NamedAs(name))| == |favs|
  {
    if favs != [] {
      NameSplit(favs[1..], name);
    }
  }

  /** Adding puts the medicine after every existing entry. */
  lemma ToggleAddAppends(favs: seq<Medicine>, m: Medicine)
    requires !HasName(favs, m.name)
    ensures |Toggled(favs, m)| == |favs| + 1
    ensures Toggled(favs, m)[..|favs|] == favs && Toggled(favs, m)[|favs|] == m
  {
  }

  /** Adding a medicine and toggling it again gives back the old list. */
  lemma ToggleTwiceRestores(favs: seq<Medicine>, m: Medicine)
    requires !HasName(favs, m.name)
    ensures Toggled(Toggled(favs, m), m) == favs
  {
    assert HasName(favs + [m], m.name) by {
      assert m in favs + [m];
    }
    FilterConcat(favs, [m], NamedOtherwise(m.name));
    FilterKeepsAll(favs, NamedOtherwise(m.name));
  }
}
