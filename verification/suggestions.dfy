/** The list part of `renderSuggestions`: the entries whose lower-cased name
    contains the trimmed, lower-cased query, at most six of them, and whether
    a "Show more results" row follows. Aliases are not consulted. */
module Suggestions {
  import opened Seqs
  import opened Text
  import opened Catalog

  const SuggestionLimit: nat := 6

  /** Hidden: the dropdown is hidden. Shown: the rows it lists, and whether
      the "Show more results" row is added. */
  datatype SuggestionView = Hidden | Shown(items: seq<Medicine>, hasMore: bool)

  predicate NameContains(key: string, m: Medicine) {
    Contains(Lower(m.name), key)
  }

  /** `medicines.filter(m => m.name.toLowerCase().includes(key))`. */
  function NameHits(catalog: seq<Medicine>, key: string): seq<Medicine> {
    Filter(catalog, m => NameContains(key, m))
  }

  function Min(a: nat, b: nat): nat { if a <= b then a else b }

  function Suggest(query: string, catalog: seq<Medicine>): (r: SuggestionView)
    ensures r.Hidden? <==> SearchKey(query) == [] || NameHits(catalog, SearchKey(query)) == []
    ensures r.Shown? ==> 1 <= |r.items| <= SuggestionLimit
    ensures r.Shown? ==> forall m :: m in r.items ==> m in catalog && NameContains(SearchKey(query), m)
    ensures r.Shown? ==> (r.hasMore <==> |NameHits(catalog, SearchKey(query))| > SuggestionLimit)
    ensures r.Shown? ==> r.items <= NameHits(catalog, SearchKey(query))
    ensures r.Shown? ==> |r.items| == Min(|NameHits(catalog, SearchKey(query))|, SuggestionLimit)
  {
    var q := Trim(query);
    TrimLowerCommute(query);
    LowerEmpty(q);
    if q == [] then Hidden
    else
      var hits := NameHits(catalog, Lower(q));
      if hits == [] then Hidden
      else
        var shown := if |hits| <= SuggestionLimit then hits else hits[..SuggestionLimit];
        assert forall m :: m in shown ==> m in hits;
        Shown(shown, |hits| > SuggestionLimit)
  }

  /** Shown rows keep catalog order. */
  lemma SuggestKeepsCatalogOrder(query: string, catalog: seq<Medicine>)
    requires Suggest(query, catalog).Shown?
    ensures IsSubsequence(Suggest(query, catalog).items, catalog)
  {
    var key := SearchKey(query);
    var items := Suggest(query, catalog).items;
    FilterIsSubsequence(catalog, m => NameContains(key, m));
    SubsequencePrefix(NameHits(catalog, key), catalog, |items|);
    assert NameHits(catalog, key)[..|items|] == items;
  }

  /** Without a "Show more" row, every entry whose name contains the key is
      listed. */
  lemma SuggestCompleteWithoutMore(query: string, catalog: seq<Medicine>, m: Medicine)
    requires Suggest(query, catalog).Shown? && !Suggest(query, catalog).hasMore
    requires m in catalog && NameContains(SearchKey(query), m)
    ensures m in Suggest(query, catalog).items
  {
    var key := SearchKey(query);
    var r := Suggest(query, catalog);
    var hits := NameHits(catalog, key);
    assert |r.items| == |hits|;
    assert r.items == hits;
    assert (m0 => NameContains(key, m0))(m);
    assert m in hits;
  }

  lemma {:induction false} NameHitsIgnoreAliases(c1: seq<Medicine>, c2: seq<Medicine>, key: string)
    requires |c1| == |c2|
    requires forall i :: 0 <= i < |c1| ==> c1[i].name == c2[i].name
    ensures |NameHits(c1, key)| == |NameHits(c2, key)|
    ensures forall k :: 0 <= k < |NameHits(c1, key)| ==> NameHits(c1, key)[k].name == NameHits(c2, key)[k].name
  {
    if c1 != [] {
      NameHitsIgnoreAliases(c1[1..], c2[1..], key);
    }
  }

  /** Aliases play no part: two catalogs with the same names in the same
      order get rows with the same names and the same "Show more" flag. */
  lemma SuggestIgnoresAliases(query: string, c1: seq<Medicine>, c2: seq<Medicine>)
    requires |c1| == |c2|
    requires forall i :: 0 <= i < |c1| ==> c1[i].name == c2[i].name
    ensures Suggest(query, c1).Shown? == Suggest(query, c2).Shown?
    ensures Suggest(query, c1).Shown? ==>
      && Suggest(query, c1).hasMore == Suggest(query, c2).hasMore
      && |Suggest(query, c1).items| == |Suggest(query, c2).items|
      && forall k :: 0 <= k < |Suggest(query, c1).items| ==>
           Suggest(query, c1).items[k].name == Suggest(query, c2).items[k].name
  {
    var key := SearchKey(query);
    var r1, r2 := Suggest(query, c1), Suggest(query, c2);
    NameHitsIgnoreAliases(c1, c2, key);
    if r1.Shown? {
      var h1, h2 := NameHits(c1, key), NameHits(c2, key);
      forall k | 0 <= k < |r1.items|
        ensures r1.items[k].name == r2.items[k].name
      {
        assert r1.items[k] == h1[k] && r2.items[k] == h2[k];
      }
    }
  }
}
