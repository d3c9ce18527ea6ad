/** The handlers of app/routers/users.py and app/routers/posts.py over one in-memory
    store: the `users` and `posts` tables and the counters the store draws fresh primary
    keys from. A handler is one atomic step: it ends in an error and changes nothing,
    or it commits its one change. */
module Store {
  import opened Common
  import opened Query
  import Schemas
  import Models
  import Users
  import Posts

  /** The query defaults of both list endpoints. */
  const DEFAULT_SKIP: int := 0
  const DEFAULT_LIMIT: int := 100

  // --- Responses (`response_model` over the ORM rows) ---

  function PostResponse(p: Models.Post): Schemas.Post {
    Schemas.Post(p.title, p.content, p.postNo, p.regDate, p.userNo)
  }

  function PostResponses(ps: seq<Models.Post>): seq<Schemas.Post> {
    seq(|ps|, i requires 0 <= i < |ps| => PostResponse(ps[i]))
  }

  /** A user as the response shows it, with the posts its relationship loads. */
  function UserResponse(u: Models.User, posts: seq<Models.Post>): Schemas.User {
    Schemas.User(u.id, u.email, u.phoneNumber, u.userSex, u.userName, u.userNo, u.regDate,
                 PostResponses(Models.PostsOf(posts, u.userNo)))
  }

  function UserResponses(us: seq<Models.User>, posts: seq<Models.Post>): seq<Schemas.User> {
    seq(|us|, i requires 0 <= i < |us| => UserResponse(us[i], posts))
  }

  /** The row a `Post` response shows: every column of the `posts` row it came from. */
  function PostRow(r: Schemas.Post): Models.Post {
    Models.Post(r.postNo, r.title, r.content, r.regDate, r.userNo)
  }

  /** The row a `User` response shows, without its loaded posts. */
  function UserRow(r: Schemas.User): Models.User {
    Models.User(r.userNo, r.id, r.email, r.phoneNumber, r.userSex, r.userName, r.regDate)
  }

  /** A post response loses no column of its row. */
  lemma PostResponseKeepsRow(p: Models.Post)
    ensures PostRow(PostResponse(p)) == p
  {
  }

  /** A user response loses no column of its row. */
  lemma UserResponseKeepsRow(u: Models.User, posts: seq<Models.Post>)
    ensures UserRow(UserResponse(u, posts)) == u
  {
  }

  /** The `posts` a user response carries are exactly that user's posts, each shown by
      its full row, in increasing `post_no` order when the table is. */
  lemma UserResponsePosts(u: Models.User, posts: seq<Models.Post>)
    requires Increasing(posts, Models.PostNo)
    ensures var shown := UserResponse(u, posts).posts;
      && (forall i :: 0 <= i < |shown| ==> PostRow(shown[i]) in posts && shown[i].userNo == u.userNo)
      && (forall p :: p in posts && p.userNo == u.userNo ==> PostResponse(p) in shown)
      && (forall i, j :: 0 <= i < j < |shown| ==> shown[i].postNo < shown[j].postNo)
  {
    var mine := Models.PostsOf(posts, u.userNo);
    var shown := UserResponse(u, posts).posts;
    FilterKeepsOrder(posts, (p: Models.Post) => p.userNo == u.userNo, Models.PostNo);
    forall i | 0 <= i < |shown| ensures PostRow(shown[i]) in posts && shown[i].userNo == u.userNo {
      assert mine[i] in mine;
    }
    forall p | p in posts && p.userNo == u.userNo ensures PostResponse(p) in shown {
      var k :| 0 <= k < |mine| && mine[k] == p;
      assert shown[k] == PostResponse(p);
    }
    forall i, j | 0 <= i < j < |shown| ensures shown[i].postNo < shown[j].postNo {
      assert Models.PostNo(mine[i]) < Models.PostNo(mine[j]);
    }
  }

  class Database {
    var users: seq<Models.User>
    var posts: seq<Models.Post>
    var nextUserNo: int
    var nextPostNo: int

    /** What every handler keeps: fresh increasing keys, unique `id`, `email` and
        `phone_number`, and owner keys that were issued. It does not rely on the cascade. */
    ghost predicate Valid()
      reads this
    {
      Models.UsersTable(users, nextUserNo) && Models.PostsTable(posts, nextPostNo, nextUserNo)
    }

    /** Every post's owner is present: kept only because `delete_user` cascades. */
    ghost predicate OwnersExist()
      reads this
    {
      Models.OwnersExist(posts, users)
    }

    /** An empty store, as `create_all` leaves it. */
    constructor ()
      ensures Valid() && OwnersExist()
      ensures users == [] && posts == [] && nextUserNo == 1 && nextPostNo == 1
    {
      users, posts := [], [];
      nextUserNo, nextPostNo := 1, 1;
    }

    // --- Users router ---

    /** `POST /users/`. */
    method CreateUser(req: Schemas.UserCreate, now: Timestamp) returns (r: Result<Schemas.User>)
      requires Valid()
      modifies this
      ensures Valid()
      ensures old(OwnersExist()) ==> OwnersExist()
      ensures posts == old(posts) && nextPostNo == old(nextPostNo)
      ensures Users.CreateCheck(old(users), req).Some? ==>
        && r == Err(Users.CreateCheck(old(users), req).value)
        && users == old(users) && nextUserNo == old(nextUserNo)
      ensures var u := Models.NewUser(old(nextUserNo), req, now);
        Users.CreateCheck(old(users), req).None? && !Models.PhonesUnique(old(users) + [u]) ==>
          r == Err(Users.PHONE_TAKEN) && users == old(users) && nextUserNo == old(nextUserNo)
      ensures var u := Models.NewUser(old(nextUserNo), req, now);
        Users.CreateCheck(old(users), req).None? && Models.PhonesUnique(old(users) + [u]) ==>
          && r == Ok(UserResponse(u, posts))
          && users == old(users) + [u] && nextUserNo == old(nextUserNo) + 1
      ensures r.Ok? ==> r.value.posts == []
      ensures r.Ok? ==> forall i :: 0 <= i < |old(users)| ==> old(users)[i].userNo < r.value.userNo
    {
      var check := Users.CreateCheck(users, req);
      if check.Some? {
        r := Err(check.value);
        return;
      }
      var u := Models.NewUser(nextUserNo, req, now);
      if !Models.PhonesUnique(users + [u]) {
        r := Err(Users.PHONE_TAKEN);
        return;
      }
      CommitUserInsert(u);
      r := Ok(UserResponse(u, posts));
    }

    /** The commit of `create_user`: `u` is appended under the next key, which the store
        accepts when its `id` and `email` are free and its phone is unique; the new key owns
        no posts yet. */
    method CommitUserInsert(u: Models.User)
      requires Valid() && u.userNo == nextUserNo
      requires Models.FindUser(users, Models.ById(u.id)).None?
      requires Models.FindUser(users, Models.ByEmail(u.email)).None?
      requires Models.PhonesUnique(users + [u])
      modifies this
      ensures Valid()
      ensures old(OwnersExist()) ==> OwnersExist()
      ensures users == old(users) + [u] && nextUserNo == old(nextUserNo) + 1
      ensures posts == old(posts) && nextPostNo == old(nextPostNo)
      ensures Models.PostsOf(posts, u.userNo) == []
    {
      Models.InsertUser(users, nextUserNo, u);
      if OwnersExist() {
        Models.OwnersAfterUserInsert(posts, users, u);
      }
      Models.FreshKeyHasNoPosts(posts, nextPostNo, nextUserNo);
      users := users + [u];
      nextUserNo := nextUserNo + 1;
    }

    /** `GET /users/?skip=&limit=`. */
    method ReadUsers(skip: int := DEFAULT_SKIP, limit: int := DEFAULT_LIMIT) returns (r: seq<Schemas.User>)
      requires Valid()
      ensures 0 <= limit ==> |r| <= limit
      ensures Start(|users|, skip) + |r| <= |users|
      ensures forall i :: 0 <= i < |r| ==> r[i] == UserResponse(users[Start(|users|, skip) + i], posts)
      ensures 0 <= limit && Start(|users|, skip) + limit <= |users| ==> |r| == limit
      ensures limit < 0 || |users| < Start(|users|, skip) + limit ==> |r| == |users| - Start(|users|, skip)
      ensures forall i, j :: 0 <= i < j < |r| ==> r[i].userNo < r[j].userNo
    {
      var page := Page(users, skip, limit);
      r := UserResponses(page, posts);
      forall i, j | 0 <= i < j < |r| ensures r[i].userNo < r[j].userNo {
        var from := Start(|users|, skip);
        assert Models.UserNo(users[from + i]) < Models.UserNo(users[from + j]);
      }
    }

    /** `GET /users/{user_no}`. */
    method ReadUser(userNo: int) returns (r: Result<Schemas.User>)
      ensures r.Err? <==> !Models.HasUser(users, userNo)
      ensures r.Err? ==> r.error == Users.USER_NOT_FOUND
      ensures r.Ok? ==> exists i :: 0 <= i < |users| && users[i].userNo == userNo && r.value == UserResponse(users[i], posts)
    {
      var found := Models.FindUser(users, Models.ByNo(userNo));
      if found.None? {
        r := Err(Users.USER_NOT_FOUND);
      } else {
        r := Ok(UserResponse(users[found.value], posts));
      }
    }

    /** `PUT /users/{user_no}`: a full replacement of the editable columns. */
    method UpdateUser(userNo: int, req: Schemas.UserBase) returns (r: Result<Schemas.User>)
      requires Valid()
      modifies this
      ensures Valid()
      ensures old(OwnersExist()) ==> OwnersExist()
      ensures posts == old(posts) && nextUserNo == old(nextUserNo) && nextPostNo == old(nextPostNo)
      ensures !Models.HasUser(old(users), userNo) ==> r == Err(Users.USER_NOT_FOUND) && users == old(users)
      ensures forall i :: 0 <= i < |old(users)| && old(users)[i].userNo == userNo ==>
        var check := Users.UpdateCheck(old(users), i, req);
        var u := Models.Replaced(old(users)[i], req);
        && (check.Some? ==> r == Err(check.value) && users == old(users))
        && (check.None? && !Models.PhonesUnique(old(users)[i := u]) ==>
              r == Err(Users.PHONE_TAKEN) && users == old(users))
        && (check.None? && Models.PhonesUnique(old(users)[i := u]) ==>
              r == Ok(UserResponse(u, posts)) && users == old(users)[i := u])
      ensures r == Err(Users.ID_TAKEN) <==>
        && Models.HasUser(old(users), userNo)
        && exists j :: 0 <= j < |old(users)| && old(users)[j].userNo != userNo && old(users)[j].id == req.id
      ensures |users| == |old(users)|
      ensures forall i :: 0 <= i < |old(users)| && old(users)[i].userNo == userNo && r.Ok? ==>
        users[i].userNo == userNo && users[i].regDate == old(users)[i].regDate
      ensures r.Ok? ==> && r.value.userNo == userNo && r.value.id == req.id && r.value.email == req.email
                        && r.value.phoneNumber == req.phoneNumber && r.value.userSex == req.userSex
                        && r.value.userName == req.userName
    {
      var found := Models.FindUser(users, Models.ByNo(userNo));
      if found.None? {
        r := Err(Users.USER_NOT_FOUND);
        return;
      }
      var i := found.value;
      assert Models.Matches(users[i], Models.ByNo(userNo));
      Models.FindUserByKey(users, i);
      assert forall j :: 0 <= j < |users| ==> (users[j].userNo == userNo <==> j == i);
      Users.UpdateCheckByKey(users, i, req);
      var check := Users.UpdateCheck(users, i, req);
      if check.Some? {
        r := Err(check.value);
        return;
      }
      var u := Users.SetUserAttrs(users[i], req.Items());
      Users.SetAllUserAttrs(users[i], req, u);
      if !Models.PhonesUnique(users[i := u]) {
        r := Err(Users.PHONE_TAKEN);
        return;
      }
      CommitUser(i, u);
      r := Ok(UserResponse(u, posts));
    }

    /** The commit of `update_user`: row `i` becomes `u`, which the store accepts when the
        key is kept, `id` and `email` are the row's own or free, and the phone is unique. */
    method CommitUser(i: nat, u: Models.User)
      requires Valid() && i < |users| && u.userNo == users[i].userNo
      requires u.id == users[i].id || Models.FindUser(users, Models.ById(u.id)).None?
      requires u.email == users[i].email || Models.FindUser(users, Models.ByEmail(u.email)).None?
      requires Models.PhonesUnique(users[i := u])
      modifies this
      ensures Valid()
      ensures old(OwnersExist()) ==> OwnersExist()
      ensures users == old(users)[i := u]
      ensures posts == old(posts) && nextUserNo == old(nextUserNo) && nextPostNo == old(nextPostNo)
    {
      Models.ReplaceUser(users, nextUserNo, i, u);
      if OwnersExist() {
        Models.OwnersAfterUserReplace(posts, users, i, u);
      }
      users := users[i := u];
    }

    /** `DELETE /users/{user_no}`, with the posts the declared ON DELETE CASCADE removes. */
    method DeleteUser(userNo: int) returns (r: Result<Schemas.User>)
      requires Valid()
      modifies this
      ensures Valid()
      ensures old(OwnersExist()) ==> OwnersExist()
      ensures nextUserNo == old(nextUserNo) && nextPostNo == old(nextPostNo)
      ensures !Models.HasUser(old(users), userNo) ==>
        r == Err(Users.USER_NOT_FOUND) && users == old(users) && posts == old(posts)
      ensures forall i :: 0 <= i < |old(users)| && old(users)[i].userNo == userNo ==>
        r == Ok(UserResponse(old(users)[i], old(posts))) && users == RemoveAt(old(users), i)
      // The cascade, as declared on posts.user_no:
      ensures Models.HasUser(old(users), userNo) ==> posts == Models.PostsNotOf(old(posts), userNo)
      ensures r.Ok? ==> !Models.HasUser(users, userNo) && Models.PostsOf(posts, userNo) == []
      // The only delete the running program completes: a user without posts.
      ensures Models.PostsOf(old(posts), userNo) == [] ==> posts == old(posts)
    {
      var found := Models.FindUser(users, Models.ByNo(userNo));
      if found.None? {
        r := Err(Users.USER_NOT_FOUND);
        return;
      }
      var i := found.value;
      assert Models.Matches(users[i], Models.ByNo(userNo));
      Models.FindUserByKey(users, i);
      r := Ok(UserResponse(users[i], posts));
      CommitUserDelete(i);
    }

    /** The commit of `delete_user`: row `i` goes, and with it, as the foreign key declares,
        every post it owns; a user without posts takes no post with it. */
    method CommitUserDelete(i: nat)
      requires Valid() && i < |users|
      modifies this
      ensures Valid()
      ensures old(OwnersExist()) ==> OwnersExist()
      ensures users == RemoveAt(old(users), i)
      ensures posts == Models.PostsNotOf(old(posts), old(users)[i].userNo)
      ensures nextUserNo == old(nextUserNo) && nextPostNo == old(nextPostNo)
      ensures !Models.HasUser(users, old(users)[i].userNo)
      ensures Models.PostsOf(posts, old(users)[i].userNo) == []
      ensures Models.PostsOf(old(posts), old(users)[i].userNo) == [] ==> posts == old(posts)
    {
      var userNo := users[i].userNo;
      Models.RemoveUser(users, nextUserNo, i);
      Models.CascadePosts(posts, nextPostNo, nextUserNo, userNo);
      Models.CascadeWithoutPosts(posts, userNo);
      if OwnersExist() {
        Models.OwnersAfterCascade(posts, users, i);
      }
      users := RemoveAt(users, i);
      posts := Models.PostsNotOf(posts, userNo);
    }

    // --- Posts router ---

    /** `POST /posts/`. */
    method CreatePost(req: Schemas.PostCreate, now: Timestamp) returns (r: Result<Schemas.Post>)
      requires Valid()
      modifies this
      ensures Valid()
      ensures old(OwnersExist()) ==> OwnersExist()
      ensures users == old(users) && nextUserNo == old(nextUserNo)
      ensures !Models.HasUser(old(users), req.userNo) ==>
        r == Err(Posts.OWNER_NOT_FOUND) && posts == old(posts) && nextPostNo == old(nextPostNo)
      ensures var p := Models.NewPost(old(nextPostNo), req, now);
        Models.HasUser(old(users), req.userNo) ==>
          r == Ok(PostResponse(p)) && posts == old(posts) + [p] && nextPostNo == old(nextPostNo) + 1
      ensures r.Ok? ==> r.value.title == req.title && r.value.content == req.content && r.value.userNo == req.userNo
      ensures r.Ok? ==> forall i :: 0 <= i < |old(posts)| ==> old(posts)[i].postNo < r.value.postNo
    {
      var owner := Models.FindUser(users, Models.ByNo(req.userNo));
      if owner.None? {
        r := Err(Posts.OWNER_NOT_FOUND);
        return;
      }
      assert Models.Matches(users[owner.value], Models.ByNo(req.userNo));
      var p := Models.NewPost(nextPostNo, req, now);
      Models.InsertPost(posts, nextPostNo, nextUserNo, p);
      if OwnersExist() {
        Models.OwnersAfterPostInsert(posts, users, p);
      }
      posts := posts + [p];
      nextPostNo := nextPostNo + 1;
      r := Ok(PostResponse(p));
    }

    /** `GET /posts/?skip=&limit=`. */
    method ReadPosts(skip: int := DEFAULT_SKIP, limit: int := DEFAULT_LIMIT) returns (r: seq<Schemas.Post>)
      requires Valid()
      ensures 0 <= limit ==> |r| <= limit
      ensures Start(|posts|, skip) + |r| <= |posts|
      ensures forall i :: 0 <= i < |r| ==> r[i] == PostResponse(posts[Start(|posts|, skip) + i])
      ensures 0 <= limit && Start(|posts|, skip) + limit <= |posts| ==> |r| == limit
      ensures limit < 0 || |posts| < Start(|posts|, skip) + limit ==> |r| == |posts| - Start(|posts|, skip)
      ensures forall i, j :: 0 <= i < j < |r| ==> r[i].postNo < r[j].postNo
    {
      var page := Page(posts, skip, limit);
      r := PostResponses(page);
      forall i, j | 0 <= i < j < |r| ensures r[i].postNo < r[j].postNo {
        var from := Start(|posts|, skip);
        assert Models.PostNo(posts[from + i]) < Models.PostNo(posts[from + j]);
      }
    }

    /** `GET /posts/{post_no}`. */
    method ReadPost(postNo: int) returns (r: Result<Schemas.Post>)
      ensures r.Err? <==> !Models.HasPost(posts, postNo)
      ensures r.Err? ==> r.error == Posts.POST_NOT_FOUND
      ensures r.Ok? ==> exists i :: 0 <= i < |posts| && posts[i].postNo == postNo && r.value == PostResponse(posts[i])
    {
      var found := Models.FindPost(posts, postNo);
      if found.None? {
        r := Err(Posts.POST_NOT_FOUND);
      } else {
        r := Ok(PostResponse(posts[found.value]));
      }
    }

    /** `PUT /posts/{post_no}`: the body is a `PostBase`, so only `title` and `content`. */
    method UpdatePost(postNo: int, req: Schemas.PostBase) returns (r: Result<Schemas.Post>)
      requires Valid()
      modifies this
      ensures Valid()
      ensures old(OwnersExist()) ==> OwnersExist()
      ensures users == old(users) && nextUserNo == old(nextUserNo) && nextPostNo == old(nextPostNo)
      ensures !Models.HasPost(old(posts), postNo) ==> r == Err(Posts.POST_NOT_FOUND) && posts == old(posts)
      ensures forall i :: 0 <= i < |old(posts)| && old(posts)[i].postNo == postNo ==>
        var p := Models.Rewritten(old(posts)[i], req);
        r == Ok(PostResponse(p)) && posts == old(posts)[i := p]
      ensures forall i :: 0 <= i < |old(posts)| && old(posts)[i].postNo == postNo ==>
        && posts[i].postNo == postNo && posts[i].userNo == old(posts)[i].userNo
        && posts[i].regDate == old(posts)[i].regDate
      ensures r.Ok? ==> r.value.postNo == postNo && r.value.title == req.title && r.value.content == req.content
    {
      var found := Models.FindPost(posts, postNo);
      if found.None? {
        r := Err(Posts.POST_NOT_FOUND);
        return;
      }
      var i := found.value;
      Models.FindPostByKey(posts, i);
      var p := Posts.SetPostAttrs(posts[i], req.Items());
      Posts.SetAllPostAttrs(posts[i], req, p);
      Models.ReplacePost(posts, nextPostNo, nextUserNo, i, p);
      if OwnersExist() {
        Models.OwnersAfterPostReplace(posts, users, i, p);
      }
      posts := posts[i := p];
      r := Ok(PostResponse(p));
    }

    /** `DELETE /posts/{post_no}`. */
    method DeletePost(postNo: int) returns (r: Result<Schemas.Post>)
      requires Valid()
      modifies this
      ensures Valid()
      ensures old(OwnersExist()) ==> OwnersExist()
      ensures users == old(users) && nextUserNo == old(nextUserNo) && nextPostNo == old(nextPostNo)
      ensures !Models.HasPost(old(posts), postNo) ==> r == Err(Posts.POST_NOT_FOUND) && posts == old(posts)
      ensures forall i :: 0 <= i < |old(posts)| && old(posts)[i].postNo == postNo ==>
        r == Ok(PostResponse(old(posts)[i])) && posts == RemoveAt(old(posts), i)
      ensures r.Ok? ==> !Models.HasPost(posts, postNo)
    {
      var found := Models.FindPost(posts, postNo);
      if found.None? {
        r := Err(Posts.POST_NOT_FOUND);
        return;
      }
      var i := found.value;
      Models.FindPostByKey(posts, i);
      r := Ok(PostResponse(posts[i]));
      Models.RemovePost(posts, nextPostNo, nextUserNo, i);
      if OwnersExist() {
        Models.OwnersAfterPostRemove(posts, users, i);
      }
      posts := RemoveAt(posts, i);
    }
  }
}
