/**
  The `comments` table: the listing the detail page shows for one movie, and
  what posting and deleting a comment do to the listings.
*/
module Comments {
  import opened Queries
  import opened Schema

  /** `Comment.query.filter_by(movie_id=movieId).all()`: the comments on one movie, in table order. */
  function CommentsFor(comments: seq<Comment>, movieId: MovieId): (r: seq<Comment>)
    ensures forall c :: c in r <==> c in comments && c.movieId == movieId
  {
    WhereMembers(comments, CommentMovieOf, movieId);
    Where(comments, CommentMovieOf, movieId)
  }

  /**
    A posted comment is listed last on its own movie's page, after the
    comments listed there before, and no other movie's listing changes.
  */
  lemma PostedCommentListed(comments: seq<Comment>, c: Comment)
    ensures CommentsFor(comments + [c], c.movieId) == CommentsFor(comments, c.movieId) + [c]
    ensures forall m :: m != c.movieId ==> CommentsFor(comments + [c], m) == CommentsFor(comments, m)
  {
    WhereAfterAppend(comments, c, CommentMovieOf, c.movieId);
    forall m | m != c.movieId
      ensures CommentsFor(comments + [c], m) == CommentsFor(comments, m)
    {
      WhereAfterAppend(comments, c, CommentMovieOf, m);
    }
  }

  /**
    Deleting comment `id` (whoever owns it) removes exactly that comment: with
    unique ids, the rows left are those with another id, the table shrinks by
    one exactly when the id was present, and the listing of every movie other
    than the deleted comment's is unchanged.
  */
  lemma DeleteRemovesExactly(comments: seq<Comment>, id: Id)
    requires Distinct(comments, CommentIdOf)
    ensures forall c :: c in RemoveFirst(comments, CommentIdOf, id) <==> c in comments && c.id != id
    ensures |RemoveFirst(comments, CommentIdOf, id)| ==
              if HasKey(comments, CommentIdOf, id) then |comments| - 1 else |comments|
    ensures forall m :: (forall c :: c in comments && c.id == id ==> c.movieId != m) ==>
              CommentsFor(RemoveFirst(comments, CommentIdOf, id), m) == CommentsFor(comments, m)
  {
    RemoveFirstExactly(comments, CommentIdOf, id);
    forall m | forall c :: c in comments && c.id == id ==> c.movieId != m
      ensures CommentsFor(RemoveFirst(comments, CommentIdOf, id), m) == CommentsFor(comments, m)
    {
      forall j | 0 <= j < |comments| && CommentIdOf(comments[j]) == id
        ensures CommentMovieOf(comments[j]) != m
      {
        assert comments[j] in comments;
      }
      WhereAfterRemove(comments, CommentMovieOf, m, CommentIdOf, id);
    }
  }
}
