/** The server side: the store object that bootstrap and create mutate, and
    the request handler that dispatches on the `api` parameter. */
module Server {
  import opened Wrappers
  import opened Schema
  import opened Seeding
  import opened Api
  import opened Feed

  /** The database: both tables and their AUTOINCREMENT counters. */
  class Store {
    var users: seq<User>
    var posts: seq<Post>
    var nextUserId: nat
    var nextPostId: nat

    function State(): StoreState
      reads this
    {
      StoreState(users, posts, nextUserId, nextPostId)
    }

    ghost predicate Valid()
      reads this
    {
      Schema.Valid(State())
    }

    /** A new database file: the tables exist and are empty. */
    constructor ()
      ensures Valid() && State() == EmptyStore
    {
      users, posts := [], [];
      nextUserId, nextPostId := 1, 1;
    }

    /** `INSERT INTO users`; it fails, changing nothing, when `handle` is
        already taken (the UNIQUE constraint). */
    method InsertUser(handle: string, displayName: string, bio: Option<string>, now: nat)
      returns (ok: bool, id: nat)
      requires Valid()
      modifies this
      ensures Valid()
      ensures ok <==> forall i :: 0 <= i < |old(users)| ==> old(users)[i].handle != handle
      ensures ok ==>
                && id == old(nextUserId)
                && users == old(users) + [User(id, handle, displayName, bio, now)]
                && nextUserId == old(nextUserId) + 1
                && posts == old(posts) && nextPostId == old(nextPostId)
      ensures !ok ==> unchanged(this)
    {
      ok := forall i :: 0 <= i < |users| ==> users[i].handle != handle;
      id := nextUserId;
      if ok {
        var u := User(id, handle, displayName, bio, now);
        assert HasUser(users + [u], id) by { assert (users + [u])[|users|].id == id; }
        forall i | 0 <= i < |posts| ensures HasUser(users + [u], posts[i].userId) {
          var j :| 0 <= j < |users| && users[j].id == posts[i].userId;
          assert (users + [u])[j].id == posts[i].userId;
        }
        users := users + [u];
        nextUserId := nextUserId + 1;
      }
    }

    /** `INSERT INTO posts`; it fails, changing nothing, when no user has id
        `uid` (the FOREIGN KEY). The new id is what `lastInsertId` reads back. */
    method InsertPost(uid: nat, body: string, kind: Kind, highlight: bool, now: nat)
      returns (ok: bool, id: nat)
      requires Valid()
      modifies this
      ensures Valid()
      ensures ok <==> HasUser(old(users), uid)
      ensures ok ==>
                && id == old(nextPostId)
                && posts == old(posts) + [Post(id, uid, body, kind, now, highlight)]
                && nextPostId == old(nextPostId) + 1
                && users == old(users) && nextUserId == old(nextUserId)
      ensures !ok ==> unchanged(this)
    {
      ok := exists j :: 0 <= j < |users| && users[j].id == uid;
      id := nextPostId;
      if ok {
        posts := posts + [Post(id, uid, body, kind, now, highlight)];
        nextPostId := nextPostId + 1;
      }
    }

    /** Seeds the demo user and the three demo posts when `users` has no
        rows; leaves the store alone otherwise. */
    method Bootstrap(now: nat)
      requires Valid()
      modifies this
      ensures Valid()
      ensures State() == Seeded(old(State()), now)
    {
      if |users| == 0 {
        NoUsersNoPosts(State());
        var _, userId := InsertUser(DemoHandle, DemoDisplayName, Some(DemoBio), now);
        assert HasUser(users, userId) by { assert users[0].id == userId; }
        InsertSeedPosts(userId, now);
      }
    }

    /** The `foreach ($seedPosts ...)` loop: one insert per seed post, in
        order, all owned by `userId`. */
    method InsertSeedPosts(userId: nat, now: nat)
      requires Valid() && HasUser(users, userId)
      modifies this
      ensures Valid()
      ensures posts == old(posts) + SeedRows(userId, old(nextPostId), now)
      ensures nextPostId == old(nextPostId) + |SeedPosts|
      ensures users == old(users) && nextUserId == old(nextUserId)
    {
      ghost var rows := SeedRows(userId, nextPostId, now);
      for i := 0 to |SeedPosts|
        invariant Valid()
        invariant users == old(users) && nextUserId == old(nextUserId)
        invariant posts == old(posts) + rows[..i] && nextPostId == old(nextPostId) + i
      {
        var seed := SeedPosts[i];
        var _, _ := InsertPost(userId, seed.body, seed.kind, seed.highlight, now);
        assert rows[..i + 1] == rows[..i] + [rows[i]];
      }
      assert rows[..|SeedPosts|] == rows;
    }

    /** `posts-create`. Fails with InvalidJson on a non-object, with
        BodyRequired when the body trims to nothing and with NoUserFound when
        `users` is empty, changing nothing in each case. Otherwise appends one
        non-highlighted post by the lowest-id user, with the trimmed body and
        the resolved kind, and returns it joined with that user; the
        returned `created_at` is the separate reading `appNow`. */
    method CreatePost(input: Option<CreateInput>, now: nat, appNow: nat)
      returns (r: Result<PostRecord, ApiError>)
      requires Valid()
      modifies this
      ensures Valid()
      ensures input.None? ==> r == Failure(InvalidJson) && unchanged(this)
      ensures input.Some? && ValidateBody(input.value.body).Failure? ==>
                r == Failure(BodyRequired) && unchanged(this)
      ensures input.Some? && ValidateBody(input.value.body).Success? && |old(users)| == 0 ==>
                r == Failure(NoUserFound) && unchanged(this)
      ensures r.Failure? ==> unchanged(this)
      ensures r.Success? <==>
                input.Some? && ValidateBody(input.value.body).Success? && |old(users)| > 0
      ensures r.Success? ==>
                var actor := old(users)[0];
                var p := Post(old(nextPostId), actor.id, ValidateBody(input.value.body).value,
                              ResolveKind(input.value.kind), now, false);
                && actor == FirstUser(old(users)).value
                && users == old(users) && nextUserId == old(nextUserId)
                && posts == old(posts) + [p] && nextPostId == old(nextPostId) + 1
                && r.value == Joined(p, actor).(createdAt := appNow)
      ensures r.Success? ==> forall i :: 0 <= i < |old(posts)| ==> old(posts)[i].id < r.value.id
      ensures r.Success? && Chronological(old(posts))
                && (forall i :: 0 <= i < |old(posts)| ==> old(posts)[i].createdAt <= now) ==>
                Chronological(posts)
      ensures r.Success? && StrictlyChronological(old(posts))
                && (forall i :: 0 <= i < |old(posts)| ==> old(posts)[i].createdAt < now) ==>
                StrictlyChronological(posts)
    {
      if input.None? {
        return Failure(InvalidJson);
      }
      var body := ValidateBody(input.value.body);
      var kind := ResolveKind(input.value.kind);
      if body.Failure? {
        return Failure(body.error);
      }
      var actor := FirstUser(users);
      if actor.None? {
        return Failure(NoUserFound);
      }
      var user := actor.value;
      FirstUserIsFirstRow(users, nextUserId);
      assert HasUser(users, user.id) by { assert users[0] == user; }
      ghost var before := posts;
      var _, id := InsertPost(user.id, body.value, kind, false, now);
      if Chronological(before) && forall i :: 0 <= i < |before| ==> before[i].createdAt <= now {
        ChronologicalAppend(before, posts[|posts| - 1]);
      }
      if StrictlyChronological(before) && forall i :: 0 <= i < |before| ==> before[i].createdAt < now {
        StrictlyChronologicalAppend(before, posts[|posts| - 1]);
      }
      r := Success(PostRecord(id, body.value, kind.Name(), appNow, false, user.handle, user.displayName));
    }

    /** One request. The HTML page and an unknown `api` value never touch
        the database; both API operations run bootstrap first, so create can
        no longer fail with NoUserFound. */
    method Handle(api: Option<string>, input: Option<CreateInput>, now: nat, appNow: nat)
      returns (resp: Response)
      requires Valid()
      modifies this
      ensures Valid()
      ensures Route(api) == HtmlPage ==> resp == Page && unchanged(this)
      ensures Route(api) == UnknownApi ==> resp == Error(UnknownEndpoint) && unchanged(this)
      ensures Route(api) == PostsList ==>
                State() == Seeded(old(State()), now) && resp == Listed(ListPosts(users, posts))
      ensures Route(api) == PostsList ==> resp.Status() == 200
      ensures Route(api) == PostsCreate ==> resp.Status() != 500
      ensures Route(api) == PostsCreate ==>
                var seeded := Seeded(old(State()), now);
                && |seeded.users| > 0
                && users == seeded.users && nextUserId == seeded.nextUserId
                && (input.None? ==> resp == Error(InvalidJson) && State() == seeded)
                && (input.Some? && ValidateBody(input.value.body).Failure? ==>
                      resp == Error(BodyRequired) && State() == seeded)
                && (resp.Created? <==> input.Some? && ValidateBody(input.value.body).Success?)
                && (!resp.Created? ==> resp.Error? && State() == seeded)
                && (resp.Created? ==>
                      var actor := seeded.users[0];
                      var p := Post(seeded.nextPostId, actor.id, ValidateBody(input.value.body).value,
                                    ResolveKind(input.value.kind), now, false);
                      && posts == seeded.posts + [p] && nextPostId == seeded.nextPostId + 1
                      && resp.record == Joined(p, actor).(createdAt := appNow))
    {
      match Route(api)
      case HtmlPage =>
        resp := Page;
      case UnknownApi =>
        resp := Error(UnknownEndpoint);
      case PostsList =>
        Bootstrap(now);
        resp := Listed(ListPosts(users, posts));
      case PostsCreate =>
        Bootstrap(now);
        SeededIdempotent(old(State()), now, now);
        var r := CreatePost(input, now, appNow);
        match r
        case Success(record) =>
          resp := Created(record);
        case Failure(e) =>
          resp := Error(e);
    }
  }
}
