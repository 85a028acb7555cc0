/**
  The `favourite_movies` table: the toggle that the like route performs and
  the list of the current user's favourite movie ids that the listing pages
  use to mark movies.
*/
module Favourites {
  import opened Queries
  import opened Schema

  /**
    The table after a toggle of (userId, movieId): the row `.first()` finds
    for that pair is deleted, or, when there is none, a row with the fresh id
    is appended.
  */
  function Toggled(favourites: seq<Favourite>, userId: Id, movieId: MovieId, freshId: Id): (r: seq<Favourite>)
    ensures HasKey(favourites, PairOf, (userId, movieId)) ==> |r| == |favourites| - 1
    ensures !HasKey(favourites, PairOf, (userId, movieId)) ==>
              r == favourites + [Favourite(freshId, movieId, userId)]
  {
    match FirstIndex(favourites, PairOf, (userId, movieId))
    case Some(_) => RemoveFirst(favourites, PairOf, (userId, movieId))
    case None => favourites + [Favourite(freshId, movieId, userId)]
  }

  /** A toggle touches no row of another (user, movie) pair: each keeps its multiplicity. */
  lemma ToggleKeepsOtherPairs(favourites: seq<Favourite>, userId: Id, movieId: MovieId, freshId: Id)
    ensures forall f :: PairOf(f) != (userId, movieId) ==>
              multiset(Toggled(favourites, userId, movieId, freshId))[f] == multiset(favourites)[f]
  {
    if HasKey(favourites, PairOf, (userId, movieId)) {
      RemoveFirstKeepsOthers(favourites, PairOf, (userId, movieId));
    }
  }

  /** Toggling twice from a table without the pair gives back the same table. */
  lemma ToggleTwiceRestores(favourites: seq<Favourite>, userId: Id, movieId: MovieId, freshId: Id, freshId2: Id)
    requires !HasKey(favourites, PairOf, (userId, movieId))
    ensures Toggled(Toggled(favourites, userId, movieId, freshId), userId, movieId, freshId2) == favourites
  {
    var row := Favourite(freshId, movieId, userId);
    FirstIndexOfAppended(favourites, row, PairOf, (userId, movieId));
    assert (favourites + [row])[..|favourites|] == favourites;
  }

  /**
    With at most one row per pair, a toggle flips whether the pair is recorded
    and keeps at most one row per pair.
  */
  lemma ToggleFlipsPair(favourites: seq<Favourite>, userId: Id, movieId: MovieId, freshId: Id)
    requires Distinct(favourites, PairOf)
    ensures HasKey(Toggled(favourites, userId, movieId, freshId), PairOf, (userId, movieId)) <==>
            !HasKey(favourites, PairOf, (userId, movieId))
    ensures Distinct(Toggled(favourites, userId, movieId, freshId), PairOf)
  {
    var pair := (userId, movieId);
    var r := Toggled(favourites, userId, movieId, freshId);
    if HasKey(favourites, PairOf, pair) {
      RemoveFirstExactly(favourites, PairOf, pair);
      DistinctRemoveFirst(favourites, PairOf, PairOf, pair);
      forall j | 0 <= j < |r|
        ensures PairOf(r[j]) != pair
      {
        assert r[j] in r;
      }
    } else {
      var row := Favourite(freshId, movieId, userId);
      DistinctAppend(favourites, row, PairOf);
      assert r[|favourites|] == row;
    }
  }

  /** The movie ids of a user's favourite rows, in table order. */
  function MovieIds(rows: seq<Favourite>): (r: seq<MovieId>)
    ensures |r| == |rows|
    ensures forall i :: 0 <= i < |rows| ==> r[i] == rows[i].movieId
  {
    seq(|rows|, i requires 0 <= i < |rows| => rows[i].movieId)
  }

  /**
    `[movie.movie_id for movie in current_user.favourite_movies]`, or the
    empty list for an anonymous visitor: a movie id is listed exactly when the
    current user has a favourite row for it.
  */
  function FavouriteIds(favourites: seq<Favourite>, current: Option<Id>): (r: seq<MovieId>)
    ensures current.None? ==> r == []
    ensures forall m :: m in r <==> current.Some? && HasKey(favourites, PairOf, (current.value, m))
  {
    match current
    case None => []
    case Some(u) =>
      var mine := Where(favourites, FavouriteOwnerOf, u);
      var r := MovieIds(mine);
      WhereMembers(favourites, FavouriteOwnerOf, u);
      assert forall m :: m in r <==> HasKey(favourites, PairOf, (u, m)) by {
        forall m
          ensures m in r <==> HasKey(favourites, PairOf, (u, m))
        {
          if m in r {
            var i :| 0 <= i < |r| && r[i] == m;
            assert mine[i] in mine;
            var j :| 0 <= j < |favourites| && favourites[j] == mine[i];
          }
          if HasKey(favourites, PairOf, (u, m)) {
            var j :| 0 <= j < |favourites| && PairOf(favourites[j]) == (u, m);
            assert favourites[j] in mine;
            var i :| 0 <= i < |mine| && mine[i] == favourites[j];
            assert r[i] == m;
          }
        }
      }
      r
  }

  /**
    What a toggle does to the favourite ids the pages show: the toggled movie
    appears for the toggling user exactly when it was absent, every other
    movie of that user keeps its mark, and every other user's list is
    unchanged.
  */
  lemma ToggleFlipsFavouriteIds(favourites: seq<Favourite>, userId: Id, movieId: MovieId, freshId: Id)
    requires Distinct(favourites, PairOf)
    ensures movieId in FavouriteIds(Toggled(favourites, userId, movieId, freshId), Some(userId)) <==>
            movieId !in FavouriteIds(favourites, Some(userId))
    ensures forall m :: m != movieId ==>
              (m in FavouriteIds(Toggled(favourites, userId, movieId, freshId), Some(userId))
               <==> m in FavouriteIds(favourites, Some(userId)))
    ensures forall u :: u != userId ==>
              FavouriteIds(Toggled(favourites, userId, movieId, freshId), Some(u)) == FavouriteIds(favourites, Some(u))
  {
    var pair := (userId, movieId);
    var r := Toggled(favourites, userId, movieId, freshId);
    ToggleFlipsPair(favourites, userId, movieId, freshId);
    ToggleKeepsOtherPairs(favourites, userId, movieId, freshId);
    forall m | m != movieId
      ensures HasKey(r, PairOf, (userId, m)) <==> HasKey(favourites, PairOf, (userId, m))
    {
      HasKeySameRows(r, favourites, PairOf, (userId, m));
    }
    forall u | u != userId
      ensures Where(r, FavouriteOwnerOf, u) == Where(favourites, FavouriteOwnerOf, u)
    {
      if HasKey(favourites, PairOf, pair) {
        WhereAfterRemove(favourites, FavouriteOwnerOf, u, PairOf, pair);
      } else {
        WhereAfterAppend(favourites, Favourite(freshId, movieId, userId), FavouriteOwnerOf, u);
      }
    }
  }
}
