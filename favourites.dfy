/**
 * The user's favourite restaurants, as the `App` component keeps them: a list of restaurant
 * ids held in component state and mirrored into key-value storage on every change.
 */
module Favourites {
  import opened Wrappers
  import opened Sequences

  /** A restaurant id, compared with strict equality. */
  type Id = int

  /** The list without any occurrence of `id`, the others kept in their order (the `filter` of a removal). */
  function Remove(favs: seq<Id>, id: Id): (r: seq<Id>)
    ensures forall x :: x in r <==> x in favs && x != id
    ensures |r| <= |favs|
  {
    if favs == [] then []
    else if favs[0] == id then Remove(favs[1..], id)
    else [favs[0]] + Remove(favs[1..], id)
  }

  /** Removing a value the list does not hold changes nothing. */
  lemma {:induction false} RemoveAbsent(favs: seq<Id>, id: Id)
    requires id !in favs
    ensures Remove(favs, id) == favs
  {
    if favs != [] {
      RemoveAbsent(favs[1..], id);
      assert favs == [favs[0]] + favs[1..];
    }
  }

  /** Removal works piece by piece: it keeps the order of what remains. */
  lemma {:induction false} RemoveAppend(a: seq<Id>, b: seq<Id>, id: Id)
    ensures Remove(a + b, id) == Remove(a, id) + Remove(b, id)
  {
    if a == [] {
      assert a + b == b;
    } else {
      assert (a + b)[1..] == a[1..] + b;
      RemoveAppend(a[1..], b, id);
    }
  }

  /** Removal drops every copy of `id` and keeps every copy of every other value. */
  lemma {:induction false} RemoveCounts(favs: seq<Id>, id: Id)
    ensures multiset(Remove(favs, id)) == multiset(favs)[id := 0]
  {
    if favs != [] {
      RemoveCounts(favs[1..], id);
      assert favs == [favs[0]] + favs[1..];
    }
  }

  /** What removal keeps appears in the original order. */
  lemma {:induction false} RemoveSubsequence(favs: seq<Id>, id: Id)
    ensures IsSubsequence(Remove(favs, id), favs)
  {
    if favs != [] {
      RemoveSubsequence(favs[1..], id);
      var rest := Remove(favs[1..], id);
      if favs[0] != id {
        assert ([favs[0]] + rest)[1..] == rest;
      } else if rest != [] {
        assert rest[0] in favs[1..];
      }
    }
  }

  /** Removal never introduces a duplicate. */
  lemma {:induction false} RemoveNoDuplicates(favs: seq<Id>, id: Id)
    requires NoDuplicates(favs)
    ensures NoDuplicates(Remove(favs, id))
  {
    if favs != [] {
      RemoveNoDuplicates(favs[1..], id);
      if favs[0] != id {
        assert ([favs[0]] + Remove(favs[1..], id))[1..] == Remove(favs[1..], id);
      }
    }
  }

  /**
   * Flips the membership of `id`: an absent id is appended at the end, a present one is
   * removed everywhere. Every other id keeps its membership.
   */
  function Toggle(favs: seq<Id>, id: Id): (r: seq<Id>)
    ensures id in r <==> id !in favs
    ensures forall x :: x != id ==> (x in r <==> x in favs)
    ensures id !in favs ==> |r| == |favs| + 1 && r[..|favs|] == favs && r[|favs|] == id
  {
    if id !in favs then favs + [id] else Remove(favs, id)
  }

  /** Removing a present id keeps exactly the other entries, in their original order. */
  lemma ToggleRemovesInOrder(favs: seq<Id>, id: Id)
    requires id in favs
    ensures multiset(Toggle(favs, id)) == multiset(favs)[id := 0]
    ensures IsSubsequence(Toggle(favs, id), favs)
  {
    RemoveCounts(favs, id);
    RemoveSubsequence(favs, id);
  }

  /** A list without duplicates stays without duplicates: the id is only appended when absent. */
  lemma ToggleNoDuplicates(favs: seq<Id>, id: Id)
    requires NoDuplicates(favs)
    ensures NoDuplicates(Toggle(favs, id))
  {
    if id !in favs {
      NoDuplicatesAppend(favs, id);
    } else {
      RemoveNoDuplicates(favs, id);
    }
  }

  /**
   * Toggling twice restores every membership; from an absent id it restores the very same list,
   * while a present id comes back at the end of the list.
   */
  lemma ToggleTwice(favs: seq<Id>, id: Id)
    ensures forall x :: x in Toggle(Toggle(favs, id), id) <==> x in favs
    ensures id !in favs ==> Toggle(Toggle(favs, id), id) == favs
    ensures id in favs ==> Toggle(Toggle(favs, id), id) == Remove(favs, id) + [id]
  {
    if id !in favs {
      RemoveAppend(favs, [id], id);
      RemoveAbsent(favs, id);
      assert Remove([id], id) == [];
    }
  }

  /** On a list without duplicates, toggling twice gives back the same entries, possibly reordered. */
  lemma ToggleTwicePermutation(favs: seq<Id>, id: Id)
    requires NoDuplicates(favs)
    ensures multiset(Toggle(Toggle(favs, id), id)) == multiset(favs)
  {
    ToggleTwice(favs, id);
    if id in favs {
      RemoveCounts(favs, id);
      NoDuplicatesCounts(favs);
      assert multiset(favs)[id] == 1;
    }
  }

  /** The heart drawn on a restaurant's cell: filled for a favourite, outlined otherwise. */
  datatype Icon = Heart | HeartOutline

  function IconFor(favs: seq<Id>, id: Id): (icon: Icon)
    ensures icon == Heart <==> id in favs
    ensures icon == HeartOutline <==> id !in favs
  {
    if id in favs then Heart else HeartOutline
  }

  /** A tap on a heart switches that heart and no other. */
  lemma IconAfterToggle(favs: seq<Id>, id: Id, other: Id)
    ensures IconFor(Toggle(favs, id), id) != IconFor(favs, id)
    ensures other != id ==> IconFor(Toggle(favs, other), id) == IconFor(favs, id)
  {
  }

  /**
   * The favourites held by the app: the in-memory list that the screens read, and the value
   * persisted under the storage key, which is `None` until something has been written.
   */
  class FavouritesStore {
    var favourites: seq<Id>
    var stored: Option<seq<Id>>

    /** In-memory state and storage agree. */
    ghost predicate Synced()
      reads this
    {
      stored == Some(favourites)
    }

    /** The app starts with an empty list whatever storage holds. */
    constructor (stored: Option<seq<Id>>)
      ensures favourites == [] && this.stored == stored
    {
      favourites := [];
      this.stored := stored;
    }

    /**
     * Startup load: a stored value replaces the in-memory list; an absent value or a failed
     * read leaves the list as it was.
     */
    method Load(readFails: bool)
      modifies this`favourites
      ensures favourites == if !readFails && stored.Some? then stored.value else old(favourites)
      ensures !readFails && stored.Some? ==> Synced()
    {
      if !readFails && stored.Some? {
        favourites := stored.value;
      }
    }

    /**
     * A tap on a heart: the new list replaces the state and is handed to storage; a failed
     * write leaves storage unchanged but keeps the new state.
     */
    method ToggleFavourite(id: Id, writeFails: bool)
      modifies this
      ensures favourites == Toggle(old(favourites), id)
      ensures stored == if writeFails then old(stored) else Some(favourites)
      ensures id in favourites <==> id !in old(favourites)
      ensures forall x :: x != id ==> (x in favourites <==> x in old(favourites))
      ensures NoDuplicates(old(favourites)) ==> NoDuplicates(favourites)
    {
      if NoDuplicates(favourites) {
        ToggleNoDuplicates(favourites, id);
      }
      var updated := Toggle(favourites, id);
      favourites := updated;
      if !writeFails {
        stored := Some(updated);
      }
    }

    /** The icon state of one restaurant's heart. */
    method IsFavourite(id: Id) returns (b: bool)
      ensures b <==> id in favourites
      ensures IconFor(favourites, id) == if b then Heart else HeartOutline
    {
      b := id in favourites;
    }

    /**
     * A relaunch: a fresh store over the same storage loads it. It gets back what was last
     * written, or the empty list when nothing was; when storage was in step with the running
     * app, the list survives the relaunch.
     */
    method Relaunch() returns (next: FavouritesStore)
      ensures fresh(next)
      ensures next.stored == stored
      ensures next.favourites == if stored.Some? then stored.value else []
      ensures Synced() ==> next.favourites == favourites && next.Synced()
    {
      next := new FavouritesStore(stored);
      next.Load(false);
    }
  }
}
