/**
 * The restaurant catalog and the list a restaurant screen shows: the whole catalog on the
 * "Restaurants" tab, only the favourites on the "Favourites" tab.
 */
module Catalog {
  import opened Wrappers
  import opened Sequences
  import opened Favourites

  /** One dish of a menu section; everything but the title may be missing. */
  datatype MenuItem = MenuItem(title: string, price: Option<string>, description: Option<string>, imgUri: Option<string>)

  datatype MenuSection = MenuSection(title: string, contents: seq<MenuItem>)

  /** A catalog entry; it is read, never changed. */
  datatype Restaurant = Restaurant(
    id: Id,
    title: string,
    tagline: string,
    eta: string,
    imgUri: string,
    height: int,
    items: seq<MenuSection>)

  /** The catalog entries whose id is a favourite, in catalog order. */
  function FavouritesOnly(catalog: seq<Restaurant>, favs: seq<Id>): (r: seq<Restaurant>)
    ensures forall e :: e in r <==> e in catalog && e.id in favs
    ensures |r| <= |catalog|
  {
    if catalog == [] then []
    else if catalog[0].id in favs then [catalog[0]] + FavouritesOnly(catalog[1..], favs)
    else FavouritesOnly(catalog[1..], favs)
  }

  /** The list a restaurant screen shows, depending on its tab. */
  function Visible(catalog: seq<Restaurant>, favs: seq<Id>, favouritesOnly: bool): (r: seq<Restaurant>)
    ensures !favouritesOnly ==> r == catalog
    ensures favouritesOnly ==> forall e :: e in r <==> e in catalog && e.id in favs
    ensures favouritesOnly ==> r == FavouritesOnly(catalog, favs)
  {
    if favouritesOnly then FavouritesOnly(catalog, favs) else catalog
  }

  /** The filter works piece by piece, so it keeps the catalog order. */
  lemma {:induction false} FavouritesOnlyAppend(a: seq<Restaurant>, b: seq<Restaurant>, favs: seq<Id>)
    ensures FavouritesOnly(a + b, favs) == FavouritesOnly(a, favs) + FavouritesOnly(b, favs)
  {
    if a == [] {
      assert a + b == b;
    } else {
      assert (a + b)[1..] == a[1..] + b;
      FavouritesOnlyAppend(a[1..], b, favs);
    }
  }

  /** The favourites view is an order-preserving selection from the catalog. */
  lemma {:induction false} FavouritesOnlySubsequence(catalog: seq<Restaurant>, favs: seq<Id>)
    ensures IsSubsequence(FavouritesOnly(catalog, favs), catalog)
  {
    if catalog != [] {
      FavouritesOnlySubsequence(catalog[1..], favs);
      var rest := FavouritesOnly(catalog[1..], favs);
      if catalog[0].id in favs {
        assert ([catalog[0]] + rest)[1..] == rest;
      } else if rest != [] {
        assert rest[0] in catalog[1..];
      }
    }
  }

  /** Each favourite entry appears as often as in the catalog, every other entry not at all. */
  lemma {:induction false} FavouritesOnlyCounts(catalog: seq<Restaurant>, favs: seq<Id>)
    ensures forall e :: multiset(FavouritesOnly(catalog, favs))[e] ==
                          if e.id in favs then multiset(catalog)[e] else 0
  {
    if catalog != [] {
      FavouritesOnlyCounts(catalog[1..], favs);
      assert catalog == [catalog[0]] + catalog[1..];
    }
  }

  /** No favourites, nothing to show. */
  lemma {:induction false} FavouritesOnlyEmpty(catalog: seq<Restaurant>)
    ensures FavouritesOnly(catalog, []) == []
  {
    if catalog != [] {
      FavouritesOnlyEmpty(catalog[1..]);
    }
  }

  /** When every catalog entry is a favourite, the favourites view is the whole catalog. */
  lemma {:induction false} FavouritesOnlyAll(catalog: seq<Restaurant>, favs: seq<Id>)
    requires forall e :: e in catalog ==> e.id in favs
    ensures FavouritesOnly(catalog, favs) == catalog
  {
    if catalog != [] {
      FavouritesOnlyAll(catalog[1..], favs);
      assert catalog == [catalog[0]] + catalog[1..];
    }
  }

  /**
   * The view depends on the favourites only through the membership of catalog ids: order,
   * repeats and ids that match no catalog entry make no difference.
   */
  lemma {:induction false} FavouritesOnlyMembership(catalog: seq<Restaurant>, favs: seq<Id>, favs': seq<Id>)
    requires forall e :: e in catalog ==> (e.id in favs <==> e.id in favs')
    ensures FavouritesOnly(catalog, favs) == FavouritesOnly(catalog, favs')
  {
    if catalog != [] {
      FavouritesOnlyMembership(catalog[1..], favs, favs');
    }
  }

  /** A favourite id that matches no catalog entry contributes nothing: dropping it changes no view. */
  lemma StaleIdIgnored(catalog: seq<Restaurant>, favs: seq<Id>, stale: Id)
    requires forall e :: e in catalog ==> e.id != stale
    ensures FavouritesOnly(catalog, Remove(favs, stale)) == FavouritesOnly(catalog, favs)
    ensures FavouritesOnly(catalog, Toggle(favs, stale)) == FavouritesOnly(catalog, favs)
  {
  }

  /**
   * A tap shows or hides exactly the entries carrying the tapped id on the favourites tab;
   * toggling an absent id twice gives back the same view.
   */
  lemma VisibleAfterToggle(catalog: seq<Restaurant>, favs: seq<Id>, id: Id)
    ensures forall e :: e in catalog && e.id == id ==>
              (e in Visible(catalog, Toggle(favs, id), true) <==> id !in favs)
    ensures forall e :: e in catalog && e.id != id ==>
              (e in Visible(catalog, Toggle(favs, id), true) <==> e in Visible(catalog, favs, true))
    ensures Visible(catalog, Toggle(Toggle(favs, id), id), true) == Visible(catalog, favs, true)
  {
    ToggleTwice(favs, id);
    FavouritesOnlyMembership(catalog, Toggle(Toggle(favs, id), id), favs);
  }

  /** A restaurant screen: its tab's setting and the list it currently shows. */
  class RestaurantScreen {
    const catalog: seq<Restaurant>
    const favouritesOnly: bool
    var dataToShow: seq<Restaurant>

    /** A screen first shows the whole catalog, before its first refresh. */
    constructor (catalog: seq<Restaurant>, favouritesOnly: bool)
      ensures this.catalog == catalog && this.favouritesOnly == favouritesOnly
      ensures dataToShow == catalog
    {
      this.catalog := catalog;
      this.favouritesOnly := favouritesOnly;
      dataToShow := catalog;
    }

    /** Re-run whenever the favourites change: the shown list is re-derived from the catalog. */
    method Refresh(favs: seq<Id>)
      modifies this
      ensures dataToShow == Visible(catalog, favs, favouritesOnly)
      ensures IsSubsequence(dataToShow, catalog)
      ensures favouritesOnly && favs == [] ==> dataToShow == []
    {
      FavouritesOnlySubsequence(catalog, favs);
      FavouritesOnlyEmpty(catalog);
      SubsequenceReflexive(catalog);
      dataToShow := Visible(catalog, favs, favouritesOnly);
    }
  }

  /**
   * Three restaurants with ids 1, 2 and 3: starring 2 and then 3 gives the favourites [2, 3],
   * and the favourites tab shows restaurants 2 and 3 in catalog order.
   */
  lemma ThreeRestaurantsScenario(r1: Restaurant, r2: Restaurant, r3: Restaurant)
    requires r1.id == 1 && r2.id == 2 && r3.id == 3
    ensures Toggle(Toggle([], 2), 3) == [2, 3]
    ensures Visible([r1, r2, r3], Toggle(Toggle([], 2), 3), true) == [r2, r3]
    ensures Toggle(Toggle([2, 3], 2), 2) == [3, 2]
  {
    assert Toggle(Toggle([], 2), 3) == [2, 3];
    var c := [r1, r2, r3];
    assert c[1..] == [r2, r3] && c[1..][1..] == [r3] && c[1..][1..][1..] == [];
    assert FavouritesOnly([r3], [2, 3]) == [r3];
    assert FavouritesOnly([r2, r3], [2, 3]) == [r2, r3];
    assert FavouritesOnly(c, [2, 3]) == [r2, r3];
    assert Remove([2, 3], 2) == [3] by {
      assert [2, 3][1..] == [3] && [3][1..] == [];
    }
  }
}
