/**
  The three tables of the application (`users`, `comments`,
  `favourite_movies`) as rows, their columns as key functions, and the
  integrity the handlers keep between them.
*/
module Schema {
  import opened Queries

  /** Primary keys are integer columns filled from a counter. */
  type Id = nat

  /** Movie ids belong to the external metadata service; the tables only store them. */
  type MovieId = int

  /** A row of `users`; the password is stored as submitted, in plain text. */
  datatype User = User(id: Id, username: string, password: string, email: string)

  /** A row of `comments`. */
  datatype Comment = Comment(id: Id, content: string, movieId: MovieId, userId: Id)

  /** A row of `favourite_movies`. */
  datatype Favourite = Favourite(id: Id, movieId: MovieId, userId: Id)

  function UserIdOf(u: User): Id { u.id }
  function UsernameOf(u: User): string { u.username }
  function EmailOf(u: User): string { u.email }

  function CommentIdOf(c: Comment): Id { c.id }
  function CommentMovieOf(c: Comment): MovieId { c.movieId }

  function FavouriteIdOf(f: Favourite): Id { f.id }
  function FavouriteOwnerOf(f: Favourite): Id { f.userId }
  /** The (user, movie) pair a favourite row records. */
  function PairOf(f: Favourite): (Id, MovieId) { (f.userId, f.movieId) }

  /**
    The state every handler keeps: primary keys unique and below the next id
    to hand out; `users.username` and `users.email` unique; every comment and
    favourite owned by an existing user; and at most one favourite row per
    (user, movie) pair, which only the toggle logic maintains.
  */
  ghost predicate WellFormed(users: seq<User>, comments: seq<Comment>, favourites: seq<Favourite>, nextId: Id)
  {
    && Distinct(users, UserIdOf) && Distinct(users, UsernameOf) && Distinct(users, EmailOf)
    && Distinct(comments, CommentIdOf)
    && Distinct(favourites, FavouriteIdOf) && Distinct(favourites, PairOf)
    && (forall u :: u in users ==> u.id < nextId)
    && (forall c :: c in comments ==> c.id < nextId && HasKey(users, UserIdOf, c.userId))
    && (forall f :: f in favourites ==> f.id < nextId && HasKey(users, UserIdOf, f.userId))
  }

  /** An id at or above every row's id names no row. */
  lemma FreshIdUnused<T>(s: seq<T>, key: T -> Id, nextId: Id)
    requires forall x :: x in s ==> key(x) < nextId
    ensures !HasKey(s, key, nextId)
  {
  }
}
