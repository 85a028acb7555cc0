/**
  The application's database as one object: the `users`, `comments` and
  `favourite_movies` tables and the counter primary keys are drawn from. Each
  method is one handler's read-then-write on the tables; the session, the
  metadata service and the rendering around it are parameters or results.
  This is CRUD logic: every method adds or removes at most one row.
*/
module MovieStore {
  import opened Queries
  import opened Schema
  import opened Accounts
  import opened Comments
  import opened Favourites
  import opened Listing

  /** What deleting a comment answers: a redirect, or the plain-text 400 error. */
  datatype DeleteOutcome = Deleted | NotFound

  const NotFoundStatus := 400
  const NotFoundMessage := "Comment not found. Try again!"

  /** The error answer of a deletion: the 400 status with its text, or None for the redirect back. */
  function DeleteError(o: DeleteOutcome): (r: Option<(int, string)>)
    ensures r.None? <==> o == Deleted
    ensures r.Some? ==> r.value == (NotFoundStatus, NotFoundMessage)
  {
    match o
    case Deleted => None
    case NotFound => Some((NotFoundStatus, NotFoundMessage))
  }

  class Store {
    var users: seq<User>
    var comments: seq<Comment>
    var favourites: seq<Favourite>
    var nextId: Id

    ghost predicate Valid()
      reads this
    {
      WellFormed(users, comments, favourites, nextId)
    }

    /** The empty database; the first primary key handed out is 1. */
    constructor ()
      ensures Valid()
      ensures users == [] && comments == [] && favourites == [] && nextId == 1
    {
      users, comments, favourites := [], [], [];
      nextId := 1;
    }

    /**
      POST /registration: the verdict of RegisterCheck on the table as it was;
      when it passes, exactly one user is appended with the username, email
      and password stored as submitted, and nothing else changes.
    */
    method Register(username: string, password: string, email: string) returns (r: Option<RegisterError>)
      requires Valid()
      modifies this
      ensures Valid()
      ensures r == RegisterCheck(old(users), username, password, email)
      ensures r.None? ==> users == old(users) + [User(old(nextId), username, password, email)]
      ensures r.None? ==> nextId == old(nextId) + 1
      ensures r.Some? ==> users == old(users) && nextId == old(nextId)
      ensures comments == old(comments) && favourites == old(favourites)
    {
      r := RegisterCheck(users, username, password, email);
      if r.None? {
        var user := User(nextId, username, password, email);
        RegisterKeepsWellFormed(users, comments, favourites, nextId, user);
        users := users + [user];
        nextId := nextId + 1;
      }
    }

    /**
      POST /login, which reads the table only: with usernames unique, the
      submitted pair logs in exactly when it is stored, and then as that user;
      the answer is "User not found" exactly when the username is absent and
      "Incorrect password" exactly when it is stored with another password.
    */
    method Login(username: string, password: string) returns (r: LoginOutcome)
      requires Valid()
      ensures r == Authenticate(users, username, password)
      ensures r == UserNotFound <==> !HasKey(users, UsernameOf, username)
      ensures r.LoggedIn? <==> exists u :: u in users && u.username == username && u.password == password
      ensures forall u :: u in users && u.username == username && u.password == password ==> r == LoggedIn(u.id)
      ensures r == IncorrectPassword <==> exists u :: u in users && u.username == username && u.password != password
    {
      r := Authenticate(users, username, password);
      LoginExactly(users, username, password);
    }

    /**
      The POST branch of the detail page: a comment by `userId` on `movieId`
      is appended under a fresh id, and nothing else changes.
    */
    method AddComment(userId: Id, movieId: MovieId, content: string) returns (c: Comment)
      requires Valid() && HasKey(users, UserIdOf, userId)
      modifies this
      ensures Valid()
      ensures c == Comment(old(nextId), content, movieId, userId)
      ensures comments == old(comments) + [c] && nextId == old(nextId) + 1
      ensures users == old(users) && favourites == old(favourites)
    {
      c := Comment(nextId, content, movieId, userId);
      AddCommentKeepsWellFormed(users, comments, favourites, nextId, c);
      comments := comments + [c];
      nextId := nextId + 1;
    }

    /**
      GET or POST /movies/<movie_id>/details, as far as it concerns the
      tables: the featured trailer is chosen first (the handler fails without
      one), a POST then adds the current user's comment, and the page lists
      every comment on the movie, the new one last.
    */
    method MovieDetails(movieId: MovieId, videos: seq<Video>, current: Option<Id>, posted: Option<string>)
      returns (videoKey: Option<string>, listing: seq<Comment>)
      requires Valid()
      requires HasKey(videos, IsOfficialTrailer, true)
      requires posted.Some? ==> current.Some? && HasKey(users, UserIdOf, current.value)
      modifies this
      ensures Valid()
      ensures videoKey == SelectTrailerKey(videos)
      ensures posted.None? ==> comments == old(comments) && nextId == old(nextId)
      ensures posted.Some? ==>
                && comments == old(comments) + [Comment(old(nextId), posted.value, movieId, current.value)]
                && nextId == old(nextId) + 1
      ensures listing == CommentsFor(comments, movieId)
      ensures posted.Some? ==> listing == CommentsFor(old(comments), movieId) + [comments[|comments| - 1]]
      ensures users == old(users) && favourites == old(favourites)
    {
      videoKey := SelectTrailerKey(videos);
      if posted.Some? {
        var c := AddComment(current.value, movieId, posted.value);
        PostedCommentListed(old(comments), c);
      }
      listing := CommentsFor(comments, movieId);
    }

    /**
      GET /comments/<comment_id>/delete: NotFound (the 400 answer) exactly
      when no comment has the id, leaving the table as it was; otherwise the
      comment with that id is deleted, whoever wrote it, and nothing else.
    */
    method DeleteComment(commentId: Id) returns (r: DeleteOutcome)
      requires Valid()
      modifies this
      ensures Valid()
      ensures r == NotFound <==> !HasKey(old(comments), CommentIdOf, commentId)
      ensures comments == RemoveFirst(old(comments), CommentIdOf, commentId)
      ensures users == old(users) && favourites == old(favourites) && nextId == old(nextId)
    {
      match FirstIndex(comments, CommentIdOf, commentId)
      case None =>
        r := NotFound;
      case Some(i) =>
        DeleteKeepsWellFormed(users, comments, favourites, nextId, commentId);
        comments := comments[..i] + comments[i + 1..];
        r := Deleted;
    }

    /**
      GET /movies/like/<movie_id>: the current user's row for the movie is
      deleted if there is one, otherwise one is inserted under a fresh id;
      `added` tells which.
    */
    method ToggleFavourite(userId: Id, movieId: MovieId) returns (added: bool)
      requires Valid() && HasKey(users, UserIdOf, userId)
      modifies this
      ensures Valid()
      ensures added <==> !HasKey(old(favourites), PairOf, (userId, movieId))
      ensures favourites == Toggled(old(favourites), userId, movieId, old(nextId))
      ensures nextId == if added then old(nextId) + 1 else old(nextId)
      ensures users == old(users) && comments == old(comments)
    {
      ToggleKeepsWellFormed(users, comments, favourites, nextId, userId, movieId);
      match FirstIndex(favourites, PairOf, (userId, movieId))
      case Some(i) =>
        favourites := favourites[..i] + favourites[i + 1..];
        added := false;
      case None =>
        favourites := favourites + [Favourite(nextId, movieId, userId)];
        nextId := nextId + 1;
        added := true;
    }
  }

  /** Appending a user that passed registration under the next id keeps the tables well formed. */
  lemma RegisterKeepsWellFormed(users: seq<User>, comments: seq<Comment>, favourites: seq<Favourite>, nextId: Id,
                                user: User)
    requires WellFormed(users, comments, favourites, nextId)
    requires user.id == nextId && RegisterCheck(users, user.username, user.password, user.email) == None
    ensures WellFormed(users + [user], comments, favourites, nextId + 1)
  {
    RegisterKeepsAccountsUnique(users, user.username, user.password, user.email, nextId);
    FreshIdUnused(users, UserIdOf, nextId);
    DistinctAppend(users, user, UserIdOf);
    OwnersSurviveAppend(users, user, comments, favourites);
  }

  /** Appending a comment by an existing user under the next id keeps the tables well formed. */
  lemma AddCommentKeepsWellFormed(users: seq<User>, comments: seq<Comment>, favourites: seq<Favourite>, nextId: Id,
                                  c: Comment)
    requires WellFormed(users, comments, favourites, nextId)
    requires c.id == nextId && HasKey(users, UserIdOf, c.userId)
    ensures WellFormed(users, comments + [c], favourites, nextId + 1)
  {
  }

  /** Deleting a comment keeps the tables well formed. */
  lemma DeleteKeepsWellFormed(users: seq<User>, comments: seq<Comment>, favourites: seq<Favourite>, nextId: Id,
                              commentId: Id)
    requires WellFormed(users, comments, favourites, nextId)
    ensures WellFormed(users, RemoveFirst(comments, CommentIdOf, commentId), favourites, nextId)
  {
  }

  /** Toggling an existing user's favourite under the next id keeps the tables well formed. */
  lemma ToggleKeepsWellFormed(users: seq<User>, comments: seq<Comment>, favourites: seq<Favourite>, nextId: Id,
                              userId: Id, movieId: MovieId)
    requires WellFormed(users, comments, favourites, nextId)
    requires HasKey(users, UserIdOf, userId)
    ensures var added := !HasKey(favourites, PairOf, (userId, movieId));
            WellFormed(users, comments, Toggled(favourites, userId, movieId, nextId),
                       if added then nextId + 1 else nextId)
  {
    ToggleFlipsPair(favourites, userId, movieId, nextId);
    if HasKey(favourites, PairOf, (userId, movieId)) {
      DistinctRemoveFirst(favourites, FavouriteIdOf, PairOf, (userId, movieId));
      RemoveFirstKeepsOthers(favourites, PairOf, (userId, movieId));
    } else {
      var row := Favourite(nextId, movieId, userId);
      FreshIdUnused(favourites, FavouriteIdOf, nextId);
      DistinctAppend(favourites, row, FavouriteIdOf);
    }
  }

  /** Comments and favourites still name existing users after a user is appended. */
  lemma OwnersSurviveAppend(users: seq<User>, user: User, comments: seq<Comment>, favourites: seq<Favourite>)
    requires forall c :: c in comments ==> HasKey(users, UserIdOf, c.userId)
    requires forall f :: f in favourites ==> HasKey(users, UserIdOf, f.userId)
    ensures forall c :: c in comments ==> HasKey(users + [user], UserIdOf, c.userId)
    ensures forall f :: f in favourites ==> HasKey(users + [user], UserIdOf, f.userId)
  {
    assert forall j :: 0 <= j < |users| ==> (users + [user])[j] == users[j];
  }
}

module StoreExample {
  import opened Queries
  import opened Schema
  import opened Accounts
  import opened Favourites
  import opened MovieStore
  import opened Text

  lemma AliceMayRegister()
    ensures RegisterCheck([], "alice", "password1", "alice@x.com") == None
  {
    assert !IsSpace('p') && !IsSpace('1') && !IsSpace('a') && !IsSpace('e');
    StripUnpadded("password1");
    StripUnpadded("alice");
  }

  /** Register "alice" on an empty database; she can then log in with the same password. */
  method AliceRegisters() returns (db: Store)
    ensures fresh(db) && db.Valid()
    ensures db.users == [User(1, "alice", "password1", "alice@x.com")]
    ensures db.favourites == [] && db.nextId == 2
    ensures Authenticate(db.users, "alice", "password1") == LoggedIn(1)
  {
    AliceMayRegister();
    db := new Store();
    var r := db.Register("alice", "password1", "alice@x.com");
    RegisteredUserCanLogIn([], "alice", "password1", "alice@x.com", 1);
  }

  /**
    Alice likes movie 42 and likes it again: the first like records the pair
    and marks the movie on her pages, the second removes the row and the mark.
  */
  method AliceLikesTwice() returns (firstAdded: bool, marked: seq<MovieId>, secondAdded: bool, unmarked: seq<MovieId>)
    ensures firstAdded && 42 in marked
    ensures !secondAdded && unmarked == []
  {
    var db := AliceRegisters();
    assert HasKey(db.users, UserIdOf, 1) by { assert UserIdOf(db.users[0]) == 1; }
    firstAdded := db.ToggleFavourite(1, 42);
    assert db.favourites == [Favourite(2, 42, 1)];
    assert HasKey(db.favourites, PairOf, (1, 42)) by {
      assert PairOf(db.favourites[0]) == (1, 42);
    }
    marked := FavouriteIds(db.favourites, Some(1));
    secondAdded := db.ToggleFavourite(1, 42);
    ToggleTwiceRestores([], 1, 42, 2, 3);
    unmarked := FavouriteIds(db.favourites, Some(1));
  }
}
