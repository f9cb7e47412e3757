/** The feed service's pure parts: the list query (join, order, cap) and the
    validation steps of create. */
module Feed {
  import opened Wrappers
  import opened Text
  import opened Schema
  import opened Api

  /** `LIMIT 100` of the list query. */
  const ListLimit: nat := 100

  function Min(a: nat, b: nat): nat {
    if a <= b then a else b
  }

  // ---------------------------------------------------------------------
  // Create: body, kind and actor

  /** `trim($data['body'] ?? '')` followed by the empty-body check. */
  function ValidateBody(raw: Option<string>): (r: Result<string, ApiError>)
    ensures r.Success? <==> raw.Some? && exists k :: 0 <= k < |raw.value| && !IsTrimChar(raw.value[k])
    ensures r.Success? ==> r.value == Trim(raw.value) && r.value != []
    ensures r.Failure? ==> r.error == BodyRequired
  {
    var body := Trim(match raw case Some(s) => s case None => "");
    if body == "" then Failure(BodyRequired) else Success(body)
  }

  /** `trim($data['kind'] ?? 'normal')` followed by the allow-list check. */
  function ResolveKind(raw: Option<string>): (k: Kind)
    ensures raw.None? ==> k == Normal
    ensures raw.Some? && Trim(raw.value) in AllowedKinds ==> k.Name() == Trim(raw.value)
    ensures raw.Some? && Trim(raw.value) !in AllowedKinds ==> k == Normal
  {
    TrimNoEdges("normal");
    var kind := Trim(match raw case Some(s) => s case None => "normal");
    match ParseKind(kind)
    case Some(k) => k
    case None => Normal
  }

  /** `SELECT ... FROM users ORDER BY id ASC LIMIT 1`. */
  function FirstUser(users: seq<User>): (r: Option<User>)
    ensures r.None? <==> |users| == 0
    ensures r.Some? ==> r.value in users && forall v :: v in users ==> r.value.id <= v.id
  {
    if |users| == 0 then None
    else
      var rest := FirstUser(users[1..]);
      if rest.Some? && rest.value.id < users[0].id then rest else Some(users[0])
  }

  /** With ids assigned in ascending order, the actor is the first row. */
  lemma FirstUserIsFirstRow(users: seq<User>, nextUserId: nat)
    requires UsersValid(users, nextUserId) && |users| > 0
    ensures FirstUser(users) == Some(users[0])
  {
    var u := FirstUser(users).value;
    var j :| 0 <= j < |users| && users[j] == u;
    if j > 0 {
      assert users[0].id < users[j].id;
    }
  }

  // ---------------------------------------------------------------------
  // List: JOIN users, ORDER BY created_at ASC, LIMIT 100

  /** The user row whose id is `uid`, if there is one. */
  function OwnerOf(users: seq<User>, uid: nat): (r: Option<User>)
    ensures r.Some? <==> HasUser(users, uid)
    ensures r.Some? ==> r.value in users && r.value.id == uid
  {
    if |users| == 0 then None
    else if users[0].id == uid then Some(users[0])
    else
      var r := OwnerOf(users[1..], uid);
      assert r.Some? ==> HasUser(users, uid) by {
        if r.Some? {
          var j :| 0 <= j < |users| - 1 && users[1..][j].id == uid;
          assert users[j + 1].id == uid;
        }
      }
      assert HasUser(users, uid) ==> r.Some? by {
        if HasUser(users, uid) {
          var j :| 0 <= j < |users| && users[j].id == uid;
          assert users[1..][j - 1].id == uid;
        }
      }
      r
  }

  /** One row of the join: the post's columns of the SELECT list, its kind as
      the stored text (which names that kind again), and the owner's handle
      and display name. */
  function Joined(p: Post, u: User): (r: PostRecord)
    ensures r.id == p.id && r.body == p.body && r.createdAt == p.createdAt && r.highlight == p.highlight
    ensures ParseKind(r.kind) == Some(p.kind)
    ensures r.handle == u.handle && r.displayName == u.displayName
  {
    PostRecord(p.id, p.body, p.kind.Name(), p.createdAt, p.highlight, u.handle, u.displayName)
  }

  /** The inner join of `posts` with `users`, in table order. Every row is a
      post of the table joined with its owner; when every post has an owner
      (the foreign key) the join is row for row. */
  function JoinRows(users: seq<User>, posts: seq<Post>): (r: seq<PostRecord>)
    ensures |r| <= |posts|
    ensures forall x :: x in r ==>
              exists i :: 0 <= i < |posts| && HasUser(users, posts[i].userId)
                && x == Joined(posts[i], OwnerOf(users, posts[i].userId).value)
    ensures (forall i :: 0 <= i < |posts| ==> HasUser(users, posts[i].userId)) ==>
              |r| == |posts|
              && forall i :: 0 <= i < |posts| ==> r[i] == Joined(posts[i], OwnerOf(users, posts[i].userId).value)
  {
    if |posts| == 0 then []
    else
      var init := posts[..|posts| - 1];
      var p := posts[|posts| - 1];
      var front := JoinRows(users, init);
      assert forall i :: 0 <= i < |init| ==> init[i] == posts[i];
      match OwnerOf(users, p.userId)
      case Some(u) => front + [Joined(p, u)]
      case None => front
  }

  /** Non-decreasing `created_at`. */
  ghost predicate Sorted(rows: seq<PostRecord>) {
    forall i, j :: 0 <= i < j < |rows| ==> rows[i].createdAt <= rows[j].createdAt
  }

  /** A row no newer than every row of a sorted sequence may go in front. */
  lemma SortedCons(a: PostRecord, rows: seq<PostRecord>)
    requires Sorted(rows)
    requires forall i :: 0 <= i < |rows| ==> a.createdAt <= rows[i].createdAt
    ensures Sorted([a] + rows)
  {
    var r := [a] + rows;
    forall i, j | 0 <= i < j < |r| ensures r[i].createdAt <= r[j].createdAt {
      assert r[j] == rows[j - 1];
      if i > 0 { assert r[i] == rows[i - 1]; }
    }
  }

  /** Inserts `x` before the first row that is not older than it. */
  function Insert(x: PostRecord, rows: seq<PostRecord>): (r: seq<PostRecord>)
    requires Sorted(rows)
    ensures Sorted(r)
    ensures multiset(r) == multiset(rows) + multiset{x}
    ensures |r| == |rows| + 1
  {
    if rows == [] || x.createdAt <= rows[0].createdAt then
      SortedCons(x, rows);
      [x] + rows
    else
      var tail := rows[1..];
      assert rows == [rows[0]] + tail;
      var rest := Insert(x, tail);
      InsertBound(x, rows[0], tail, rest);
      SortedCons(rows[0], rest);
      [rows[0]] + rest
  }

  /** The rows of `rest` are `x` and the rows of `tail`, all no older than `a`. */
  lemma InsertBound(x: PostRecord, a: PostRecord, tail: seq<PostRecord>, rest: seq<PostRecord>)
    requires a.createdAt < x.createdAt
    requires forall i :: 0 <= i < |tail| ==> a.createdAt <= tail[i].createdAt
    requires multiset(rest) == multiset(tail) + multiset{x}
    ensures forall i :: 0 <= i < |rest| ==> a.createdAt <= rest[i].createdAt
  {
    forall i | 0 <= i < |rest| ensures a.createdAt <= rest[i].createdAt {
      var y := rest[i];
      assert y in multiset(rest);
      if y != x {
        assert y in multiset(tail);
        var j :| 0 <= j < |tail| && tail[j] == y;
      }
    }
  }

  /** `ORDER BY created_at ASC`: a stable insertion sort, so rows with equal
      timestamps keep table order. */
  function SortByCreated(rows: seq<PostRecord>): (r: seq<PostRecord>)
    ensures Sorted(r)
    ensures multiset(r) == multiset(rows)
    ensures |r| == |rows|
  {
    if rows == [] then []
    else
      assert rows == [rows[0]] + rows[1..];
      Insert(rows[0], SortByCreated(rows[1..]))
  }

  /** The list query. The result has min(#joined rows, 100) rows, ordered by
      non-decreasing `created_at`, each of them a row of the join. */
  function ListPosts(users: seq<User>, posts: seq<Post>): (r: seq<PostRecord>)
    ensures |r| == Min(|JoinRows(users, posts)|, ListLimit)
    ensures Sorted(r)
    ensures multiset(r) <= multiset(JoinRows(users, posts))
  {
    var all := SortByCreated(JoinRows(users, posts));
    var r := all[..Min(|all|, ListLimit)];
    assert all == r + all[Min(|all|, ListLimit)..];
    r
  }

  /** The cap keeps the OLDEST rows: every row of the join left out is no
      older than every row returned. */
  lemma ListPostsEarliest(users: seq<User>, posts: seq<Post>)
    ensures var r := ListPosts(users, posts);
      forall y :: y in multiset(JoinRows(users, posts)) - multiset(r) ==>
        forall x :: x in r ==> x.createdAt <= y.createdAt
  {
    var all := SortByCreated(JoinRows(users, posts));
    SortedPrefixEarliest(all, Min(|all|, ListLimit));
  }

  /** A prefix of sorted rows holds rows no newer than any row after it. */
  lemma SortedPrefixEarliest(all: seq<PostRecord>, k: nat)
    requires Sorted(all) && k <= |all|
    ensures forall y :: y in multiset(all) - multiset(all[..k]) ==>
              forall x :: x in all[..k] ==> x.createdAt <= y.createdAt
  {
    assert all == all[..k] + all[k..];
    assert multiset(all) - multiset(all[..k]) == multiset(all[k..]);
    forall y, x | y in multiset(all[k..]) && x in all[..k]
      ensures x.createdAt <= y.createdAt
    {
      var j :| 0 <= j < |all| - k && all[k..][j] == y;
      var i :| 0 <= i < k && all[..k][i] == x;
      assert all[k..][j] == all[k + j];
      assert all[..k][i] == all[i];
      assert i < k + j;
      assert all[i].createdAt <= all[k + j].createdAt;
    }
  }

  /** On a store that satisfies its schema every post joins, so the list
      has min(#posts, 100) rows, each a post joined with its owner. */
  lemma ListPostsValid(s: StoreState)
    requires Valid(s)
    ensures var r := ListPosts(s.users, s.posts);
      && |r| == Min(|s.posts|, ListLimit)
      && forall x :: x in r ==>
           exists i :: 0 <= i < |s.posts| && HasUser(s.users, s.posts[i].userId)
             && x == Joined(s.posts[i], OwnerOf(s.users, s.posts[i].userId).value)
  {
    var r := ListPosts(s.users, s.posts);
    forall x | x in r
      ensures x in JoinRows(s.users, s.posts)
    {
      assert x in multiset(r);
    }
  }

  /** Sorting rows that are already in order changes nothing. */
  lemma {:induction false} SortSortedIdentity(rows: seq<PostRecord>)
    requires Sorted(rows)
    ensures SortByCreated(rows) == rows
  {
    if rows != [] {
      assert Sorted(rows[1..]);
      SortSortedIdentity(rows[1..]);
    }
  }

  /** No two different rows share a `created_at`. */
  ghost predicate TimesDetermineRows(rows: seq<PostRecord>) {
    forall x, y :: x in rows && y in rows && x.createdAt == y.createdAt ==> x == y
  }

  /** Two sorted arrangements of the same rows are the same sequence when
      no two different rows share a timestamp. */
  lemma {:induction false} SortedUnique(a: seq<PostRecord>, b: seq<PostRecord>)
    requires Sorted(a) && Sorted(b) && multiset(a) == multiset(b)
    requires TimesDetermineRows(a)
    ensures a == b
  {
    assert |a| == |multiset(a)| == |multiset(b)| == |b|;
    if a != [] {
      SortedHeadsAgree(a, b);
      DropHead(a);
      DropHead(b);
      SortedTail(a);
      SortedTail(b);
      TimesTail(a);
      SortedUnique(a[1..], b[1..]);
      assert a == [a[0]] + a[1..] && b == [b[0]] + b[1..];
    }
  }

  lemma SortedTail(a: seq<PostRecord>)
    requires Sorted(a) && a != []
    ensures Sorted(a[1..])
  {
    assert forall i :: 0 <= i < |a| - 1 ==> a[1..][i] == a[i + 1];
  }

  lemma TimesTail(a: seq<PostRecord>)
    requires TimesDetermineRows(a) && a != []
    ensures TimesDetermineRows(a[1..])
  {
    forall x | x in a[1..] ensures x in a { }
  }

  /** The oldest row of a sorted arrangement is determined by its rows. */
  lemma SortedHeadsAgree(a: seq<PostRecord>, b: seq<PostRecord>)
    requires Sorted(a) && Sorted(b) && multiset(a) == multiset(b)
    requires TimesDetermineRows(a) && a != [] && b != []
    ensures a[0] == b[0]
  {
    assert a[0] in multiset(b) && b[0] in multiset(a);
    var k :| 0 <= k < |b| && b[k] == a[0];
    var m :| 0 <= m < |a| && a[m] == b[0];
    assert b[0].createdAt <= b[k].createdAt;
    assert a[0].createdAt <= a[m].createdAt;
  }

  lemma DropHead(a: seq<PostRecord>)
    requires a != []
    ensures multiset(a[1..]) == multiset(a) - multiset{a[0]}
  {
    assert a == [a[0]] + a[1..];
  }

  /** When no two different joined rows share a timestamp, the list does
      not depend on how the database orders rows: every arrangement of the
      join sorted by `created_at`, cut at 100 rows, is exactly the list. */
  lemma ListPostsAnyOrder(users: seq<User>, posts: seq<Post>, order: seq<PostRecord>)
    requires TimesDetermineRows(JoinRows(users, posts))
    requires Sorted(order) && multiset(order) == multiset(JoinRows(users, posts))
    ensures |order| == |JoinRows(users, posts)|
    ensures order[..Min(|order|, ListLimit)] == ListPosts(users, posts)
  {
    var rows := JoinRows(users, posts);
    var sorted := SortByCreated(rows);
    assert |order| == |multiset(order)| == |rows|;
    assert TimesDetermineRows(sorted) by {
      forall x | x in sorted ensures x in rows {
        assert x in multiset(sorted);
      }
    }
    SortedUnique(sorted, order);
  }

  /** On a valid, strictly chronological store, different joined rows have
      different timestamps. */
  lemma StrictTimesDetermineRows(s: StoreState)
    requires Valid(s) && StrictlyChronological(s.posts)
    ensures TimesDetermineRows(JoinRows(s.users, s.posts))
  {
    var rows := JoinRows(s.users, s.posts);
    forall x, y | x in rows && y in rows && x.createdAt == y.createdAt ensures x == y {
      var i :| 0 <= i < |rows| && rows[i] == x;
      var j :| 0 <= j < |rows| && rows[j] == y;
      assert s.posts[i].createdAt == s.posts[j].createdAt;
      assert i == j;
    }
  }

  /** With strictly increasing timestamps the list is the first
      min(#posts, 100) posts of the table, joined with their owners (the
      oldest posts, not the newest). */
  lemma ListPostsChronological(s: StoreState)
    requires Valid(s) && StrictlyChronological(s.posts)
    ensures var r := ListPosts(s.users, s.posts);
      && |r| == Min(|s.posts|, ListLimit)
      && forall i :: 0 <= i < |r| ==> r[i] == Joined(s.posts[i], OwnerOf(s.users, s.posts[i].userId).value)
  {
    var rows := JoinRows(s.users, s.posts);
    assert Sorted(rows);
    SortSortedIdentity(rows);
  }

  /** The same for any order in which the database may return the joined
      rows sorted by `created_at`: its first 100 rows are the oldest posts. */
  lemma ListPostsChronologicalAnyOrder(s: StoreState, order: seq<PostRecord>)
    requires Valid(s) && StrictlyChronological(s.posts)
    requires Sorted(order) && multiset(order) == multiset(JoinRows(s.users, s.posts))
    ensures var k := Min(|s.posts|, ListLimit);
      && |order| == |s.posts|
      && forall i :: 0 <= i < k ==> order[i] == Joined(s.posts[i], OwnerOf(s.users, s.posts[i].userId).value)
  {
    StrictTimesDetermineRows(s);
    ListPostsAnyOrder(s.users, s.posts, order);
    ListPostsChronological(s);
    var k := Min(|s.posts|, ListLimit);
    forall i | 0 <= i < k
      ensures order[i] == Joined(s.posts[i], OwnerOf(s.users, s.posts[i].userId).value)
    {
      assert order[..k][i] == ListPosts(s.users, s.posts)[i];
    }
  }

  /** Once there are more than 100 posts, the newest one is not listed. */
  lemma ListOmitsNewest(s: StoreState)
    requires Valid(s) && StrictlyChronological(s.posts) && |s.posts| > ListLimit
    ensures forall x :: x in ListPosts(s.users, s.posts) ==> x.id != s.posts[|s.posts| - 1].id
  {
    ListPostsChronological(s);
    var r := ListPosts(s.users, s.posts);
    forall x | x in r ensures x.id != s.posts[|s.posts| - 1].id {
      var i :| 0 <= i < |r| && r[i] == x;
      assert x.id == s.posts[i].id;
    }
  }

  /** With at most 100 strictly chronological posts, the newest post is the
      last row listed. */
  lemma ListEndsWithNewest(s: StoreState)
    requires Valid(s) && StrictlyChronological(s.posts) && 0 < |s.posts| <= ListLimit
    ensures var r := ListPosts(s.users, s.posts);
      var p := s.posts[|s.posts| - 1];
      |r| == |s.posts| && r[|r| - 1] == Joined(p, OwnerOf(s.users, p.userId).value)
  {
    ListPostsChronological(s);
  }
}
