/** The demo data that bootstrap writes into an empty store, and the state
    bootstrap leaves behind. */
module Seeding {
  import opened Wrappers
  import opened Schema

  const DemoHandle: string := "@senior_demo"
  const DemoDisplayName: string := "Senior Demo User"
  const DemoBio: string := "Practicing safe communication and emergency planning with SCSN."

  /** One entry of the seed list: body, kind and the `hi` flag. */
  datatype SeedPost = SeedPost(body: string, kind: Kind, highlight: bool)

  const SeedPosts: seq<SeedPost> := [
    SeedPost("Welcome to the Senior Citizens Social Network. This feed is for civic and support use.", Normal, true),
    SeedPost("Tip: Keep a written list of emergency contacts near the phone in case the device fails.", Normal, false),
    SeedPost("Quick buttons 1–3 are training tools. Always call 911 directly in a real emergency.", Normal, false)
  ]

  /** The demo user as inserted with id `id` at time `now`. */
  function DemoUser(id: nat, now: nat): User {
    User(id, DemoHandle, DemoDisplayName, Some(DemoBio), now)
  }

  /** The row the `i`-th seed post becomes when post ids start at `firstId`. */
  function SeedRow(uid: nat, firstId: nat, now: nat, i: nat): Post
    requires i < |SeedPosts|
  {
    Post(firstId + i, uid, SeedPosts[i].body, SeedPosts[i].kind, now, SeedPosts[i].highlight)
  }

  /** All seed rows, in the order of the seed list: consecutive ids from
      `firstId`, all owned by `uid`, of kind normal, stamped `now`, carrying
      the seed bodies, and only the first highlighted. */
  function SeedRows(uid: nat, firstId: nat, now: nat): (r: seq<Post>)
    ensures |r| == |SeedPosts| == 3
    ensures forall i :: 0 <= i < |r| ==>
              && r[i].id == firstId + i && r[i].userId == uid && r[i].kind == Normal
              && r[i].createdAt == now && r[i].body == SeedPosts[i].body
              && (r[i].highlight <==> i == 0)
  {
    seq(|SeedPosts|, i requires 0 <= i < |SeedPosts| => SeedRow(uid, firstId, now, i))
  }

  /** The store after bootstrap at time `now`: seeded when `users` has no
      rows, untouched otherwise. */
  function Seeded(s: StoreState, now: nat): (r: StoreState)
    ensures |s.users| > 0 ==> r == s
    ensures |s.users| == 0 ==>
              && |r.users| == 1 && r.users[0].id == s.nextUserId
              && r.users[0].handle == DemoHandle && r.users[0].displayName == DemoDisplayName
              && r.nextUserId == s.nextUserId + 1
              && |r.posts| == |s.posts| + 3 && r.posts[..|s.posts|] == s.posts
              && r.nextPostId == s.nextPostId + 3
              && forall i :: |s.posts| <= i < |r.posts| ==> r.posts[i].userId == r.users[0].id
  {
    if |s.users| == 0 then
      StoreState(
        s.users + [DemoUser(s.nextUserId, now)],
        s.posts + SeedRows(s.nextUserId, s.nextPostId, now),
        s.nextUserId + 1,
        s.nextPostId + |SeedPosts|)
    else s
  }

  /** Bootstrap leaves a non-empty store alone. */
  lemma SeededNonEmptyUnchanged(s: StoreState, now: nat)
    requires |s.users| > 0
    ensures Seeded(s, now) == s
  {
  }

  /** Bootstrap is idempotent: a second run, at any time, changes nothing. */
  lemma SeededIdempotent(s: StoreState, t1: nat, t2: nat)
    ensures |Seeded(s, t1).users| > 0
    ensures Seeded(Seeded(s, t1), t2) == Seeded(s, t1)
  {
  }

  /** Seeding a valid empty store gives one user, `@senior_demo`, and exactly
      three posts owned by that user, all of kind normal, of which only the
      first is highlighted. */
  lemma SeededEmptyShape(s: StoreState, now: nat)
    requires Valid(s) && |s.users| == 0
    ensures var r := Seeded(s, now);
      && |r.users| == 1 && r.users[0].handle == DemoHandle
      && r.users[0].displayName == DemoDisplayName
      && |r.posts| == 3
      && (forall i :: 0 <= i < 3 ==> r.posts[i].userId == r.users[0].id && r.posts[i].kind == Normal)
      && r.posts[0].highlight && !r.posts[1].highlight && !r.posts[2].highlight
  {
    NoUsersNoPosts(s);
  }

  /** Running bootstrap twice on an empty store yields exactly one user and
      three posts. */
  lemma SeededTwiceFromEmpty(t1: nat, t2: nat)
    ensures var r := Seeded(Seeded(EmptyStore, t1), t2);
      |r.users| == 1 && r.users[0].handle == DemoHandle && |r.posts| == 3
  {
    SeededIdempotent(EmptyStore, t1, t2);
    SeededEmptyShape(EmptyStore, t1);
  }

  /** Bootstrap keeps the schema constraints. */
  lemma SeededValid(s: StoreState, now: nat)
    requires Valid(s)
    ensures Valid(Seeded(s, now))
  {
    if |s.users| == 0 {
      NoUsersNoPosts(s);
      var r := Seeded(s, now);
      assert r.users == [DemoUser(s.nextUserId, now)];
      assert r.posts == SeedRows(s.nextUserId, s.nextPostId, now);
      assert UsersValid(r.users, r.nextUserId);
      assert HasUser(r.users, s.nextUserId) by { assert r.users[0].id == s.nextUserId; }
      SeedRowsValid(r.users, s.nextUserId, s.nextPostId, now);
    }
  }

  /** The seed rows satisfy the posts constraints for an existing owner. */
  lemma SeedRowsValid(users: seq<User>, uid: nat, firstId: nat, now: nat)
    requires HasUser(users, uid) && 1 <= firstId
    ensures PostsValid(users, SeedRows(uid, firstId, now), firstId + |SeedPosts|)
  {
  }
}
