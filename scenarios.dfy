/** Request sequences from the repository's tests and the service's promised round
    trips, proved from the handlers' contracts alone (as a client would see them). */
module Scenarios {
  import opened Common
  import Schemas
  import Models
  import Users
  import Posts
  import Store
  import Query

  /** Creating a user and reading it back by the key it got returns the same record. */
  method CreateThenReadUser(db: Store.Database, req: Schemas.UserCreate, now: Timestamp)
    returns (created: Result<Schemas.User>, read: Result<Schemas.User>)
    requires db.Valid()
    modifies db
    ensures db.Valid()
    ensures created.Ok? ==> read == created
    ensures created.Ok? ==> created.value.id == req.id && created.value.email == req.email
  {
    created := db.CreateUser(req, now);
    if created.Err? {
      read := created;
      return;
    }
    var last := |db.users| - 1;
    Models.FindUserByKey(db.users, last);
    read := db.ReadUser(created.value.userNo);
    assert Models.HasUser(db.users, created.value.userNo) by {
      assert db.users[last].userNo == created.value.userNo;
    }
  }

  /** A second user with a taken `id` (and any `email`) is refused with the `id` message. */
  method DuplicateId(db: Store.Database, first: Schemas.UserCreate, second: Schemas.UserCreate, now: Timestamp)
    returns (r1: Result<Schemas.User>, r2: Result<Schemas.User>)
    requires db.Valid() && db.users == []
    requires second.id == first.id
    modifies db
    ensures r1.Ok?
    ensures r2 == Err(Users.ID_TAKEN)
    ensures |db.users| == 1
  {
    r1 := db.CreateUser(first, now);
    r2 := db.CreateUser(second, now);
    assert db.users[0].id == second.id;
  }

  /** Creating a user whose `id` and `email` nobody holds, and with no phone number,
      always succeeds: the response echoes the request under the next key, and exactly
      that user is appended. */
  method CreateFreshUser(db: Store.Database, req: Schemas.UserCreate, now: Timestamp)
    returns (r: Result<Schemas.User>)
    requires db.Valid() && req.phoneNumber.None?
    requires forall i :: 0 <= i < |db.users| ==> db.users[i].id != req.id && db.users[i].email != req.email
    modifies db
    ensures db.Valid() && db.nextUserNo == old(db.nextUserNo) + 1
    ensures db.users == old(db.users) + [Models.NewUser(old(db.nextUserNo), req, now)]
    ensures db.posts == old(db.posts) && db.nextPostNo == old(db.nextPostNo)
    ensures r.Ok? && r.value.userNo == old(db.nextUserNo)
    ensures r.value.id == req.id && r.value.email == req.email && r.value.userName == req.userName
  {
    ghost var u := Models.NewUser(db.nextUserNo, req, now);
    assert Models.PhonesUnique(db.users + [u]) by {
      forall i, j | 0 <= i < j < |db.users + [u]| && (db.users + [u])[i].phoneNumber.Some?
        ensures (db.users + [u])[i].phoneNumber != (db.users + [u])[j].phoneNumber
      {
        if j < |db.users| {
          assert (db.users + [u])[i] == db.users[i] && (db.users + [u])[j] == db.users[j];
        }
      }
    }
    r := db.CreateUser(req, now);
  }

  /** A post for a user just created is stored, and the response echoes its `title`,
      `content` and owner. */
  method CreateUserThenPost(db: Store.Database, user: Schemas.UserCreate, title: string,
                            content: string, now: Timestamp)
    returns (u: Result<Schemas.User>, p: Result<Schemas.Post>)
    requires db.Valid() && user.phoneNumber.None?
    requires forall i :: 0 <= i < |db.users| ==> db.users[i].id != user.id && db.users[i].email != user.email
    modifies db
    ensures db.Valid()
    ensures u.Ok? && p.Ok?
    ensures p.value.title == title && p.value.content == content && p.value.userNo == u.value.userNo
    ensures u.value.userNo == old(db.nextUserNo) && p.value.postNo == old(db.nextPostNo)
    ensures db.users == old(db.users) + [Models.NewUser(old(db.nextUserNo), user, now)]
    ensures db.posts == old(db.posts) + [Models.NewPost(old(db.nextPostNo), Schemas.PostCreate(title, content, u.value.userNo), now)]
  {
    u := CreateFreshUser(db, user, now);
    assert Models.HasUser(db.users, u.value.userNo) by {
      assert db.users[|db.users| - 1].userNo == u.value.userNo;
    }
    p := db.CreatePost(Schemas.PostCreate(title, content, u.value.userNo), now);
  }

  /** After creating A, B and C in that order, `skip=1, limit=1` lists exactly B. */
  method SecondPageOfOne(db: Store.Database, a: Schemas.UserCreate, b: Schemas.UserCreate,
                         c: Schemas.UserCreate, now: Timestamp)
    returns (page: seq<Schemas.User>)
    requires db.Valid() && db.users == []
    requires a.id != b.id && a.id != c.id && b.id != c.id
    requires a.email != b.email && a.email != c.email && b.email != c.email
    requires a.phoneNumber.None? && b.phoneNumber.None? && c.phoneNumber.None?
    modifies db
    ensures |page| == 1 && page[0].id == b.id && page[0].email == b.email
  {
    var _ := CreateFreshUser(db, a, now);
    var _ := CreateFreshUser(db, b, now);
    var _ := CreateFreshUser(db, c, now);
    assert |db.users| == 3 && db.users[1].id == b.id && db.users[1].email == b.email;
    page := db.ReadUsers(1, 1);
    assert Query.Start(3, 1) == 1;
  }

  /** After creating two users, the default page lists both, in creation order. */
  method ListTwo(db: Store.Database, a: Schemas.UserCreate, b: Schemas.UserCreate, now: Timestamp)
    returns (page: seq<Schemas.User>)
    requires db.Valid() && db.users == []
    requires a.id != b.id && a.email != b.email
    requires a.phoneNumber.None? && b.phoneNumber.None?
    modifies db
    ensures |page| == 2 && page[0].id == a.id && page[1].id == b.id
  {
    var _ := CreateFreshUser(db, a, now);
    var _ := CreateFreshUser(db, b, now);
    page := db.ReadUsers();
    assert Query.Start(2, Store.DEFAULT_SKIP) == 0;
  }

  /** Once a user is deleted, reading it by its key is refused. */
  method DeleteThenReadUser(db: Store.Database, userNo: int)
    returns (deleted: Result<Schemas.User>, read: Result<Schemas.User>)
    requires db.Valid()
    modifies db
    ensures deleted.Ok? ==> read == Err(Users.USER_NOT_FOUND)
    ensures deleted.Err? ==> deleted == Err(Users.USER_NOT_FOUND) && read == Err(Users.USER_NOT_FOUND)
  {
    deleted := db.DeleteUser(userNo);
    read := db.ReadUser(userNo);
  }

  /** Once a post is deleted, reading it by its key is refused. */
  method DeleteThenReadPost(db: Store.Database, postNo: int)
    returns (deleted: Result<Schemas.Post>, read: Result<Schemas.Post>)
    requires db.Valid()
    modifies db
    ensures deleted.Ok? ==> read == Err(Posts.POST_NOT_FOUND)
    ensures deleted.Err? ==> deleted == Err(Posts.POST_NOT_FOUND) && read == Err(Posts.POST_NOT_FOUND)
  {
    deleted := db.DeletePost(postNo);
    read := db.ReadPost(postNo);
  }

  /** Updating a user with its own current `id` and `email` (and phone) succeeds. */
  method KeepOwnId(db: Store.Database, userNo: int, req: Schemas.UserBase)
    returns (r: Result<Schemas.User>)
    requires db.Valid()
    requires exists i :: (0 <= i < |db.users| && db.users[i].userNo == userNo &&
      db.users[i].id == req.id && db.users[i].email == req.email && db.users[i].phoneNumber == req.phoneNumber)
    modifies db
    ensures r.Ok? && r.value.id == req.id && r.value.userNo == userNo
  {
    var i :| 0 <= i < |db.users| && db.users[i].userNo == userNo &&
      db.users[i].id == req.id && db.users[i].email == req.email && db.users[i].phoneNumber == req.phoneNumber;
    Models.SamePhoneKeepsPhonesUnique(db.users, i, Models.Replaced(db.users[i], req));
    r := db.UpdateUser(userNo, req);
  }

  /** Creating a post and reading it back by its key returns a record equal in all fields. */
  method CreateThenReadPost(db: Store.Database, req: Schemas.PostCreate, now: Timestamp)
    returns (created: Result<Schemas.Post>, read: Result<Schemas.Post>)
    requires db.Valid()
    modifies db
    ensures db.Valid()
    ensures created.Ok? ==> read == created
  {
    created := db.CreatePost(req, now);
    if created.Err? {
      read := created;
      return;
    }
    var last := |db.posts| - 1;
    Models.FindPostByKey(db.posts, last);
    read := db.ReadPost(created.value.postNo);
    assert Models.HasPost(db.posts, created.value.postNo) by {
      assert db.posts[last].postNo == created.value.postNo;
    }
  }

  /** A post for a user number never issued is refused and nothing is stored. */
  method PostForMissingOwner(db: Store.Database, req: Schemas.PostCreate, now: Timestamp)
    returns (r: Result<Schemas.Post>)
    requires db.Valid() && req.userNo >= db.nextUserNo
    modifies db
    ensures r == Err(Posts.OWNER_NOT_FOUND)
    ensures db.posts == old(db.posts)
  {
    r := db.CreatePost(req, now);
  }

  /** Under the declared cascade, once a user is deleted, reading that user's post gives
      404 "Post not found". */
  method DeleteUserRemovesPosts(db: Store.Database, user: Schemas.UserCreate, title: string,
                                content: string, now: Timestamp)
    returns (p: Result<Schemas.Post>, d: Result<Schemas.User>, read: Result<Schemas.Post>)
    requires db.Valid() && user.phoneNumber.None?
    requires forall i :: 0 <= i < |db.users| ==> db.users[i].id != user.id && db.users[i].email != user.email
    modifies db
    ensures db.Valid()
    ensures p.Ok? && d.Ok?
    ensures read == Err(Posts.POST_NOT_FOUND)
  {
    ghost var earlier := db.posts;
    var u;
    u, p := CreateUserThenPost(db, user, title, content, now);
    var owner, postNo := u.value.userNo, p.value.postNo;
    ghost var before := db.posts;
    assert Models.HasUser(db.users, owner) by {
      assert db.users[|db.users| - 1].userNo == owner;
    }
    d := db.DeleteUser(owner);
    read := db.ReadPost(postNo);
    assert !Models.HasPost(db.posts, postNo) by {
      forall k | 0 <= k < |db.posts| ensures db.posts[k].postNo != postNo {
        assert db.posts[k] in Models.PostsNotOf(before, owner);
        var m :| 0 <= m < |before| && before[m] == db.posts[k];
        if m < |earlier| {
          assert before[m] == earlier[m] && earlier[m].postNo < postNo;
        }
      }
    }
  }
}
