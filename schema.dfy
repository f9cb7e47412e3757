/** The two tables of the store, `users` and `posts`, their rows and the
    constraints their schema imposes. */
module Schema {
  import opened Wrappers

  /** The post kinds the create operation accepts. The column is free text;
      the model closes it to the four values that can ever be written. */
  datatype Kind = Normal | Help | Alert911 | EmergencyAddress {
    /** The text stored in the `kind` column. */
    function Name(): string {
      match this
      case Normal => "normal"
      case Help => "help"
      case Alert911 => "911"
      case EmergencyAddress => "emergency_address"
    }
  }

  /** The allow-list of the create operation, in the source's order. */
  const AllowedKinds: seq<string> := ["normal", "help", "911", "emergency_address"]

  /** The kind whose stored text is `s`, if any: the inverse of `Kind.Name`. */
  function ParseKind(s: string): (r: Option<Kind>)
    ensures r.Some? <==> s in AllowedKinds
    ensures forall k: Kind :: r == Some(k) <==> k.Name() == s
  {
    if s == "normal" then Some(Normal)
    else if s == "help" then Some(Help)
    else if s == "911" then Some(Alert911)
    else if s == "emergency_address" then Some(EmergencyAddress)
    else None
  }

  /** A row of `users`. Timestamps are abstract clock readings. */
  datatype User = User(id: nat, handle: string, displayName: string, bio: Option<string>, createdAt: nat)

  /** A row of `posts`; `is_highlight` (0 or 1) is a boolean here. */
  datatype Post = Post(id: nat, userId: nat, body: string, kind: Kind, createdAt: nat, highlight: bool)

  /** A row of the list query (a post joined with its owner's handle and
      display name), which is also the record create returns. */
  datatype PostRecord = PostRecord(
    id: nat, body: string, kind: string, createdAt: nat, highlight: bool,
    handle: string, displayName: string)

  /** Both tables, plus the next AUTOINCREMENT value of each. */
  datatype StoreState = StoreState(users: seq<User>, posts: seq<Post>, nextUserId: nat, nextPostId: nat)

  /** A freshly created database: empty tables, both sequences starting at 1. */
  const EmptyStore: StoreState := StoreState([], [], 1, 1)

  predicate HasUser(users: seq<User>, uid: nat) {
    exists j :: 0 <= j < |users| && users[j].id == uid
  }

  /** `users`: ids assigned in ascending order, positive and below the next
      AUTOINCREMENT value, and `handle` UNIQUE. */
  ghost predicate UsersValid(users: seq<User>, nextUserId: nat) {
    && 1 <= nextUserId
    && (forall i, j :: 0 <= i < j < |users| ==> users[i].id < users[j].id)
    && (forall i :: 0 <= i < |users| ==> 1 <= users[i].id < nextUserId)
    && (forall i, j :: 0 <= i < j < |users| ==> users[i].handle != users[j].handle)
  }

  /** `posts`: ids as for users, and the FOREIGN KEY on `user_id`. */
  ghost predicate PostsValid(users: seq<User>, posts: seq<Post>, nextPostId: nat) {
    && 1 <= nextPostId
    && (forall i, j :: 0 <= i < j < |posts| ==> posts[i].id < posts[j].id)
    && (forall i :: 0 <= i < |posts| ==> 1 <= posts[i].id < nextPostId)
    && (forall i :: 0 <= i < |posts| ==> HasUser(users, posts[i].userId))
  }

  ghost predicate Valid(s: StoreState) {
    UsersValid(s.users, s.nextUserId) && PostsValid(s.users, s.posts, s.nextPostId)
  }

  /** Posts were stamped by a clock that never went backwards. */
  ghost predicate Chronological(posts: seq<Post>) {
    forall i, j :: 0 <= i < j < |posts| ==> posts[i].createdAt <= posts[j].createdAt
  }

  /** Every post has a later timestamp than the posts before it, so no two
      posts share a `created_at` and `ORDER BY created_at` has one outcome. */
  ghost predicate StrictlyChronological(posts: seq<Post>) {
    forall i, j :: 0 <= i < j < |posts| ==> posts[i].createdAt < posts[j].createdAt
  }

  /** The foreign key leaves no post without users. */
  lemma NoUsersNoPosts(s: StoreState)
    requires Valid(s) && |s.users| == 0
    ensures s.posts == []
  {
    if s.posts != [] {
      assert HasUser(s.users, s.posts[0].userId) by {
        assert 0 <= 0 < |s.posts|;
      }
      assert false;
    }
  }

  /** Appending a post stamped no earlier than every existing one keeps the
      table chronological. */
  lemma ChronologicalAppend(posts: seq<Post>, p: Post)
    requires Chronological(posts)
    requires forall i :: 0 <= i < |posts| ==> posts[i].createdAt <= p.createdAt
    ensures Chronological(posts + [p])
  {
  }

  /** Appending a post stamped later than every existing one keeps the
      table strictly chronological. */
  lemma StrictlyChronologicalAppend(posts: seq<Post>, p: Post)
    requires StrictlyChronological(posts)
    requires forall i :: 0 <= i < |posts| ==> posts[i].createdAt < p.createdAt
    ensures StrictlyChronological(posts + [p])
  {
  }
}
