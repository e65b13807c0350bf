/** The catalog records and the matching part of `performSearch`: a query is
    lower-cased and trimmed, an empty key goes back to the home screen, and
    otherwise three tiers are tried in order, each taking the first hit in
    catalog order. */
module Catalog {
  import opened Wrappers
  import opened Seqs
  import opened Text

  datatype Dose = Dose(amount: string, interval: string, maxPerDay: string)
  datatype Dosage = Dosage(adult: Dose, child: Dose)

  /** One record of `medicines.json`. An absent `otherNames` is the empty
      sequence; only `name` and `otherNames` take part in matching. */
  datatype Medicine = Medicine(
    name: string,
    otherNames: seq<string>,
    uses: string,
    ingredients: seq<string>,
    dosage: Option<Dosage>,
    sideEffects: seq<string>)

  /** What `performSearch` ends in: the welcome screen, the details of a
      medicine, or the "No medicine found" alert. */
  datatype SearchOutcome = Home | Found(medicine: Medicine) | NotFound

  /** The three tiers, in the order they are tried. */
  datatype Tier = ExactName | ExactAlias | Partial

  /** `(query || "").toLowerCase().trim()`. */
  function SearchKey(query: string): string {
    Trim(Lower(query))
  }

  predicate Matches(t: Tier, m: Medicine, q: string) {
    match t
    case ExactName => Lower(m.name) == q
    case ExactAlias => exists a :: a in m.otherNames && Lower(a) == q
    case Partial =>
      Contains(Lower(m.name), q) || exists a :: a in m.otherNames && Contains(Lower(a), q)
  }

  /** No entry of the catalog is hit by tier `t`. */
  ghost predicate NoHit(catalog: seq<Medicine>, t: Tier, q: string) {
    forall j :: 0 <= j < |catalog| ==> !Matches(t, catalog[j], q)
  }

  /** Entry `i` is the first hit of tier `t` in catalog order. */
  ghost predicate IsFirstHit(catalog: seq<Medicine>, t: Tier, q: string, i: int) {
    0 <= i < |catalog| && Matches(t, catalog[i], q)
    && forall j :: 0 <= j < i ==> !Matches(t, catalog[j], q)
  }

  /** Every tier tried before `t` found nothing. */
  ghost predicate EarlierTiersMiss(catalog: seq<Medicine>, t: Tier, q: string) {
    (t != ExactName ==> NoHit(catalog, ExactName, q))
    && (t == Partial ==> NoHit(catalog, ExactAlias, q))
  }

  /** A hit of an exact tier is also a substring hit. */
  lemma ExactHitIsPartial(t: Tier, m: Medicine, q: string)
    requires Matches(t, m, q)
    ensures Matches(Partial, m, q)
  {
    if t == ExactAlias {
      var a :| a in m.otherNames && Lower(a) == q;
      assert Contains(Lower(a), q);
    }
  }

  /** The first catalog entry hit by tier `t`. */
  function FirstHit(catalog: seq<Medicine>, t: Tier, q: string): Option<nat> {
    FirstIndex(catalog, m => Matches(t, m, q))
  }

  /** The first-hit index is what `FirstHit` returns, and a tier without
      hits returns nothing. */
  lemma FirstHitIs(catalog: seq<Medicine>, t: Tier, q: string)
    ensures forall i :: IsFirstHit(catalog, t, q, i) ==> FirstHit(catalog, t, q) == Some(i)
    ensures FirstHit(catalog, t, q).None? <==> NoHit(catalog, t, q)
    ensures FirstHit(catalog, t, q).Some? ==> IsFirstHit(catalog, t, q, FirstHit(catalog, t, q).value)
  {
  }

  /** The matching part of `performSearch`. */
  function Resolve(query: string, catalog: seq<Medicine>): (r: SearchOutcome)
    ensures r.Home? <==> SearchKey(query) == []
    ensures r.Found? ==> r.medicine in catalog
  {
    ResolveKey(SearchKey(query), catalog)
  }

  /** The tiers tried on the normalised key `q`. */
  function ResolveKey(q: string, catalog: seq<Medicine>): (r: SearchOutcome)
    ensures r.Home? <==> q == []
    ensures r.Found? ==> r.medicine in catalog
  {
    if q == [] then Home
    else match FirstHit(catalog, ExactName, q)
      case Some(i) => Found(catalog[i])
      case None =>
        match FirstHit(catalog, ExactAlias, q)
        case Some(i) => Found(catalog[i])
        case None =>
          match FirstHit(catalog, Partial, q)
          case Some(i) => Found(catalog[i])
          case None => NotFound
  }

  /** Tier precedence: when the first tier with any hit is `t` and its first
      hit is entry `i`, the search shows entry `i`. */
  lemma ResolveTierPrecedence(query: string, catalog: seq<Medicine>, t: Tier, i: nat)
    requires SearchKey(query) != []
    requires IsFirstHit(catalog, t, SearchKey(query), i)
    requires EarlierTiersMiss(catalog, t, SearchKey(query))
    ensures Resolve(query, catalog) == Found(catalog[i])
  {
    var q := SearchKey(query);
    FirstHitIs(catalog, ExactName, q);
    FirstHitIs(catalog, ExactAlias, q);
    FirstHitIs(catalog, Partial, q);
  }

  /** Conversely, whatever the search shows is the first hit of the first
      tier that has one. */
  lemma ResolveFoundIsFirstHit(query: string, catalog: seq<Medicine>)
    requires Resolve(query, catalog).Found?
    ensures exists t, i ::
      && IsFirstHit(catalog, t, SearchKey(query), i)
      && EarlierTiersMiss(catalog, t, SearchKey(query))
      && Resolve(query, catalog).medicine == catalog[i]
  {
    KeyFoundIsFirstHit(SearchKey(query), catalog);
  }

  /** The same on the normalised key. */
  lemma KeyFoundIsFirstHit(q: string, catalog: seq<Medicine>)
    requires ResolveKey(q, catalog).Found?
    ensures exists t, i ::
      && IsFirstHit(catalog, t, q, i)
      && EarlierTiersMiss(catalog, t, q)
      && ResolveKey(q, catalog).medicine == catalog[i]
  {
    FirstHitIs(catalog, ExactName, q);
    FirstHitIs(catalog, ExactAlias, q);
    FirstHitIs(catalog, Partial, q);
    var t := if FirstHit(catalog, ExactName, q).Some? then ExactName
      else if FirstHit(catalog, ExactAlias, q).Some? then ExactAlias
      else Partial;
    var i := FirstHit(catalog, t, q).value;
    assert IsFirstHit(catalog, t, q, i);
  }

  /** The "No medicine found" alert appears exactly when the key is not empty
      and no name or alias of any entry contains it. */
  lemma ResolveNotFound(query: string, catalog: seq<Medicine>)
    ensures Resolve(query, catalog).NotFound?
      <==> SearchKey(query) != [] && NoHit(catalog, Partial, SearchKey(query))
  {
    var q := SearchKey(query);
    FirstHitIs(catalog, ExactName, q);
    FirstHitIs(catalog, ExactAlias, q);
    FirstHitIs(catalog, Partial, q);
    forall t, j | 0 <= j < |catalog| && Matches(t, catalog[j], q)
      ensures Matches(Partial, catalog[j], q)
    {
      ExactHitIsPartial(t, catalog[j], q);
    }
  }

  /** Trimming the query first (as the Enter key handler does) leaves the
      search key unchanged. */
  lemma SearchKeyOfTrimmed(query: string)
    ensures SearchKey(Trim(query)) == SearchKey(query)
  {
    TrimLowerCommute(query);
    TrimTwice(Lower(query));
  }

  /** The Enter key searches the trimmed input: the same as searching the
      input as typed. */
  lemma ResolveTrimmed(input: string, catalog: seq<Medicine>)
    ensures Resolve(Trim(input), catalog) == Resolve(input, catalog)
  {
    SearchKeyOfTrimmed(input);
  }

  /** An input that trims to nothing goes home. */
  lemma ResolveBlank(input: string, catalog: seq<Medicine>)
    requires Trim(input) == []
    ensures Resolve(input, catalog) == Home
  {
    SearchKeyOfTrimmed(input);
    assert Lower(Trim(input)) == [];
  }

  /** Searching for a medicine's own name (already trimmed) shows that
      medicine, unless an earlier entry has the same name up to case. */
  lemma ResolveOwnName(catalog: seq<Medicine>, i: nat)
    requires i < |catalog|
    requires catalog[i].name != [] && Trim(catalog[i].name) == catalog[i].name
    requires forall j :: 0 <= j < i ==> Lower(catalog[j].name) != Lower(catalog[i].name)
    ensures Resolve(catalog[i].name, catalog) == Found(catalog[i])
  {
    var name := catalog[i].name;
    TrimLowerCommute(name);
    LowerEmpty(name);
    assert SearchKey(name) == Lower(name);
    ResolveTierPrecedence(name, catalog, ExactName, i);
  }

  /** Searching for an alias of entry `i` shows entry `i`, provided no entry
      at all is named like it and no earlier entry has the same alias. */
  lemma ResolveAlias(catalog: seq<Medicine>, i: nat, alias: string)
    requires i < |catalog| && alias in catalog[i].otherNames
    requires alias != [] && Trim(alias) == alias
    requires NoHit(catalog, ExactName, Lower(alias))
    requires forall j :: 0 <= j < i ==> !Matches(ExactAlias, catalog[j], Lower(alias))
    ensures Resolve(alias, catalog) == Found(catalog[i])
  {
    TrimLowerCommute(alias);
    LowerEmpty(alias);
    assert SearchKey(alias) == Lower(alias);
    assert Matches(ExactAlias, catalog[i], Lower(alias));
    ResolveTierPrecedence(alias, catalog, ExactAlias, i);
  }
}
