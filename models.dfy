/** The `users` and `posts` tables of app/models.py: the row shapes, the column
    defaults the store applies at insert, the constraints it keeps, the lookups the
    routers run, and what each kind of table change does to the constraints. */
module Models {
  import opened Common
  import opened Query
  import Schemas

  /** Column default of `users.user_sex`, applied at insert when the value is null. */
  const DEFAULT_USER_SEX := "M"

  /** A row of `users`; `userNo` is the auto-assigned primary key. */
  datatype User = User(userNo: int, id: string, email: string, phoneNumber: Option<string>,
                       userSex: Option<string>, userName: string, regDate: Timestamp)

  /** A row of `posts`; `postNo` is the auto-assigned primary key, `userNo` the owner. */
  datatype Post = Post(postNo: int, title: string, content: string, regDate: Timestamp, userNo: int)

  function UserNo(u: User): int { u.userNo }
  function PostNo(p: Post): int { p.postNo }

  // --- Lookups ---

  /** The user filters the routers use: by key, by `id`, by `email`. */
  datatype UserQuery = ByNo(no: int) | ById(id: string) | ByEmail(email: string)

  predicate Matches(u: User, q: UserQuery) {
    match q
    case ByNo(k) => u.userNo == k
    case ById(id) => u.id == id
    case ByEmail(email) => u.email == email
  }

  /** `db.query(models.User).filter(..).first()`, as an index into the table. */
  function FindUser(users: seq<User>, q: UserQuery): Option<nat> {
    FirstMatch(users, (u: User) => Matches(u, q))
  }

  /** `db.query(models.Post).filter(models.Post.post_no == postNo).first()`. */
  function FindPost(posts: seq<Post>, postNo: int): Option<nat> {
    FirstMatch(posts, (p: Post) => p.postNo == postNo)
  }

  /** The posts of one user (the `posts` relationship), in insertion order. */
  function PostsOf(posts: seq<Post>, userNo: int): seq<Post> {
    Filter(posts, (p: Post) => p.userNo == userNo)
  }

  /** The posts of every other user: what the declared cascade leaves behind. */
  function PostsNotOf(posts: seq<Post>, userNo: int): seq<Post> {
    Filter(posts, (p: Post) => p.userNo != userNo)
  }

  /** Some user row has key `userNo`. */
  predicate HasUser(users: seq<User>, userNo: int) {
    exists i :: 0 <= i < |users| && users[i].userNo == userNo
  }

  /** Some post row has key `postNo`. */
  predicate HasPost(posts: seq<Post>, postNo: int) {
    exists i :: 0 <= i < |posts| && posts[i].postNo == postNo
  }

  // --- Constraints ---

  /** `users.id` is `unique=True`. */
  ghost predicate IdsUnique(users: seq<User>) {
    forall i, j :: 0 <= i < j < |users| ==> users[i].id != users[j].id
  }

  /** `users.email` is `unique=True`. */
  ghost predicate EmailsUnique(users: seq<User>) {
    forall i, j :: 0 <= i < j < |users| ==> users[i].email != users[j].email
  }

  /** `users.phone_number` is `unique=True, nullable=True`: two nulls do not collide.
      Only the store checks it, at commit. */
  predicate PhonesUnique(users: seq<User>) {
    forall i, j :: 0 <= i < j < |users| && users[i].phoneNumber.Some? ==>
      users[i].phoneNumber != users[j].phoneNumber
  }

  /** The users table: keys drawn from a counter `nextUserNo`, so positive, increasing in
      insertion order and below the counter; the three unique columns unique. */
  ghost predicate UsersTable(users: seq<User>, nextUserNo: int) {
    && 1 <= nextUserNo
    && Increasing(users, UserNo)
    && (forall i :: 0 <= i < |users| ==> 1 <= users[i].userNo < nextUserNo)
    && IdsUnique(users) && EmailsUnique(users) && PhonesUnique(users)
  }

  /** The posts table: keys as for users; every owner key is one the users counter issued. */
  ghost predicate PostsTable(posts: seq<Post>, nextPostNo: int, nextUserNo: int) {
    && 1 <= nextPostNo
    && Increasing(posts, PostNo)
    && (forall i :: 0 <= i < |posts| ==> 1 <= posts[i].postNo < nextPostNo)
    && (forall i :: 0 <= i < |posts| ==> 1 <= posts[i].userNo < nextUserNo)
  }

  /** The foreign key `posts.user_no -> users.user_no` holds for every row. */
  ghost predicate OwnersExist(posts: seq<Post>, users: seq<User>) {
    forall i :: 0 <= i < |posts| ==> HasUser(users, posts[i].userNo)
  }

  // --- Rows built from requests ---

  /** `models.User(**user.dict())` as the insert completes it: the new key, the insert
      instant, and the column default in place of a null `user_sex`. */
  function NewUser(userNo: int, req: Schemas.UserCreate, now: Timestamp): User {
    User(userNo, req.id, req.email, req.phoneNumber, Some(req.userSex.GetOr(DEFAULT_USER_SEX)),
         req.userName, now)
  }

  /** `models.Post(**post.dict())` as the insert completes it. */
  function NewPost(postNo: int, req: Schemas.PostCreate, now: Timestamp): Post {
    Post(postNo, req.title, req.content, now, req.userNo)
  }

  /** A user row with every editable column taken from the request. */
  function Replaced(u: User, req: Schemas.UserBase): User {
    u.(id := req.id, email := req.email, phoneNumber := req.phoneNumber,
       userSex := req.userSex, userName := req.userName)
  }

  /** A post row with `title` and `content` taken from the request. */
  function Rewritten(p: Post, req: Schemas.PostBase): Post {
    p.(title := req.title, content := req.content)
  }

  // --- getattr / setattr on the editable columns ---

  /** `getattr(u, c)`, as the attribute a `setattr` of that column would write. */
  function Get(u: User, c: Schemas.UserColumn): (a: Schemas.UserAttr)
    ensures a.Column() == c
  {
    match c
    case IdColumn => Schemas.Id(u.id)
    case EmailColumn => Schemas.Email(u.email)
    case PhoneNumberColumn => Schemas.PhoneNumber(u.phoneNumber)
    case UserSexColumn => Schemas.UserSex(u.userSex)
    case UserNameColumn => Schemas.UserName(u.userName)
  }

  /** `setattr(u, key, value)`: writes one column and nothing else. */
  function SetAttr(u: User, a: Schemas.UserAttr): (r: User)
    ensures Get(r, a.Column()) == a
    ensures forall c :: c != a.Column() ==> Get(r, c) == Get(u, c)
    ensures r.userNo == u.userNo && r.regDate == u.regDate
  {
    match a
    case Id(id) => u.(id := id)
    case Email(email) => u.(email := email)
    case PhoneNumber(phone) => u.(phoneNumber := phone)
    case UserSex(sex) => u.(userSex := sex)
    case UserName(name) => u.(userName := name)
  }

  /** `getattr(p, c)` for an editable post column. */
  function GetPost(p: Post, c: Schemas.PostColumn): (a: Schemas.PostAttr)
    ensures a.Column() == c
  {
    match c
    case TitleColumn => Schemas.Title(p.title)
    case ContentColumn => Schemas.Content(p.content)
  }

  /** `setattr(p, key, value)` for an editable post column. */
  function SetPostAttr(p: Post, a: Schemas.PostAttr): (r: Post)
    ensures GetPost(r, a.Column()) == a
    ensures forall c :: c != a.Column() ==> GetPost(r, c) == GetPost(p, c)
    ensures r.postNo == p.postNo && r.regDate == p.regDate && r.userNo == p.userNo
  {
    match a
    case Title(t) => p.(title := t)
    case Content(t) => p.(content := t)
  }

  /** A user row is its key, its date and its editable columns. */
  lemma UserDeterminedByColumns(u: User, v: User)
    requires u.userNo == v.userNo && u.regDate == v.regDate
    requires forall c :: Get(u, c) == Get(v, c)
    ensures u == v
  {
    assert Get(u, Schemas.IdColumn) == Get(v, Schemas.IdColumn);
    assert Get(u, Schemas.EmailColumn) == Get(v, Schemas.EmailColumn);
    assert Get(u, Schemas.PhoneNumberColumn) == Get(v, Schemas.PhoneNumberColumn);
    assert Get(u, Schemas.UserSexColumn) == Get(v, Schemas.UserSexColumn);
    assert Get(u, Schemas.UserNameColumn) == Get(v, Schemas.UserNameColumn);
  }

  /** A post row is its key, date, owner and editable columns. */
  lemma PostDeterminedByColumns(p: Post, q: Post)
    requires p.postNo == q.postNo && p.regDate == q.regDate && p.userNo == q.userNo
    requires forall c :: GetPost(p, c) == GetPost(q, c)
    ensures p == q
  {
    assert GetPost(p, Schemas.TitleColumn) == GetPost(q, Schemas.TitleColumn);
    assert GetPost(p, Schemas.ContentColumn) == GetPost(q, Schemas.ContentColumn);
  }

  // --- Lookups by key ---

  /** Keys are unique, so looking a user's key up finds that very row. */
  lemma FindUserByKey(users: seq<User>, i: nat)
    requires Increasing(users, UserNo) && i < |users|
    ensures FindUser(users, ByNo(users[i].userNo)) == Some(i)
    ensures forall k :: 0 <= k < |users| && k != i ==> users[k].userNo != users[i].userNo
  {
    assert Matches(users[i], ByNo(users[i].userNo));
    forall j | 0 <= j < |users| && j != i ensures !Matches(users[j], ByNo(users[i].userNo)) {
      if j < i { assert UserNo(users[j]) < UserNo(users[i]); }
      else { assert UserNo(users[i]) < UserNo(users[j]); }
    }
  }

  /** Keys are unique, so looking a post's key up finds that very row. */
  lemma FindPostByKey(posts: seq<Post>, i: nat)
    requires Increasing(posts, PostNo) && i < |posts|
    ensures FindPost(posts, posts[i].postNo) == Some(i)
    ensures forall k :: 0 <= k < |posts| && k != i ==> posts[k].postNo != posts[i].postNo
  {
    forall j | 0 <= j < |posts| && j != i ensures posts[j].postNo != posts[i].postNo {
      if j < i { assert PostNo(posts[j]) < PostNo(posts[i]); }
      else { assert PostNo(posts[i]) < PostNo(posts[j]); }
    }
  }

  /** No post can name a key the users counter has not issued yet. */
  lemma FreshKeyHasNoPosts(posts: seq<Post>, nextPostNo: int, nextUserNo: int)
    requires PostsTable(posts, nextPostNo, nextUserNo)
    ensures PostsOf(posts, nextUserNo) == []
  {
    FilterEmpty(posts, (p: Post) => p.userNo == nextUserNo);
  }

  // --- Table changes and the constraints ---

  /** Appending a row with the next key and a free `id` and `email` keeps the users
      table valid, provided the store accepted its phone number. */
  lemma InsertUser(users: seq<User>, nextUserNo: int, u: User)
    requires UsersTable(users, nextUserNo)
    requires u.userNo == nextUserNo
    requires FindUser(users, ById(u.id)).None? && FindUser(users, ByEmail(u.email)).None?
    requires PhonesUnique(users + [u])
    ensures UsersTable(users + [u], nextUserNo + 1)
  {
    var t := users + [u];
    forall i, j | 0 <= i < j < |t| ensures UserNo(t[i]) < UserNo(t[j]) && t[i].id != t[j].id && t[i].email != t[j].email {
      if j == |users| {
        assert !Matches(users[i], ById(u.id)) && !Matches(users[i], ByEmail(u.email));
      } else {
        assert UserNo(users[i]) < UserNo(users[j]);
      }
    }
  }

  /** Overwriting row `i`'s editable columns keeps the users table valid when the new `id`
      and `email` are the row's own or held by nobody, and the store accepted the phone. */
  lemma ReplaceUser(users: seq<User>, nextUserNo: int, i: nat, u: User)
    requires UsersTable(users, nextUserNo) && i < |users|
    requires u.userNo == users[i].userNo
    requires u.id == users[i].id || FindUser(users, ById(u.id)).None?
    requires u.email == users[i].email || FindUser(users, ByEmail(u.email)).None?
    requires PhonesUnique(users[i := u])
    ensures UsersTable(users[i := u], nextUserNo)
  {
    var t := users[i := u];
    forall a, b | 0 <= a < b < |t| ensures UserNo(t[a]) < UserNo(t[b]) && t[a].id != t[b].id && t[a].email != t[b].email {
      assert UserNo(users[a]) < UserNo(users[b]);
      if a == i {
        assert !Matches(users[b], ById(u.id)) || u.id == users[i].id;
        assert !Matches(users[b], ByEmail(u.email)) || u.email == users[i].email;
      } else if b == i {
        assert !Matches(users[a], ById(u.id)) || u.id == users[i].id;
        assert !Matches(users[a], ByEmail(u.email)) || u.email == users[i].email;
      }
    }
  }

  /** Rewriting a row without changing its phone number keeps the phone numbers unique. */
  lemma SamePhoneKeepsPhonesUnique(users: seq<User>, i: nat, u: User)
    requires PhonesUnique(users) && i < |users| && u.phoneNumber == users[i].phoneNumber
    ensures PhonesUnique(users[i := u])
  {
  }

  /** Removing a row keeps the users table valid, and its key is then found nowhere. */
  lemma RemoveUser(users: seq<User>, nextUserNo: int, i: nat)
    requires UsersTable(users, nextUserNo) && i < |users|
    ensures UsersTable(RemoveAt(users, i), nextUserNo)
    ensures FindUser(RemoveAt(users, i), ByNo(users[i].userNo)).None?
  {
    var t := RemoveAt(users, i);
    forall a, b | 0 <= a < b < |t|
      ensures UserNo(t[a]) < UserNo(t[b]) && t[a].id != t[b].id && t[a].email != t[b].email
      ensures t[a].phoneNumber.Some? ==> t[a].phoneNumber != t[b].phoneNumber
    {
      var a', b' := if a < i then a else a + 1, if b < i then b else b + 1;
      assert t[a] == users[a'] && t[b] == users[b'] && a' < b';
    }
    forall k | 0 <= k < |t| ensures !Matches(t[k], ByNo(users[i].userNo)) {
      var k' := if k < i then k else k + 1;
      assert t[k] == users[k'] && k' != i;
      if k' < i { assert UserNo(users[k']) < UserNo(users[i]); }
      else { assert UserNo(users[i]) < UserNo(users[k']); }
    }
  }

  /** Appending a post with the next key and an issued owner key keeps the posts table valid. */
  lemma InsertPost(posts: seq<Post>, nextPostNo: int, nextUserNo: int, p: Post)
    requires PostsTable(posts, nextPostNo, nextUserNo)
    requires p.postNo == nextPostNo && 1 <= p.userNo < nextUserNo
    ensures PostsTable(posts + [p], nextPostNo + 1, nextUserNo)
  {
    var t := posts + [p];
    forall i, j | 0 <= i < j < |t| ensures PostNo(t[i]) < PostNo(t[j]) {
      if j < |posts| { assert PostNo(posts[i]) < PostNo(posts[j]); }
    }
  }

  /** Rewriting a post's editable columns keeps the posts table valid. */
  lemma ReplacePost(posts: seq<Post>, nextPostNo: int, nextUserNo: int, i: nat, p: Post)
    requires PostsTable(posts, nextPostNo, nextUserNo) && i < |posts|
    requires p.postNo == posts[i].postNo && p.userNo == posts[i].userNo
    ensures PostsTable(posts[i := p], nextPostNo, nextUserNo)
  {
    var t := posts[i := p];
    forall a, b | 0 <= a < b < |t| ensures PostNo(t[a]) < PostNo(t[b]) {
      assert PostNo(posts[a]) < PostNo(posts[b]);
    }
  }

  /** Removing a post keeps the posts table valid, and its key is then found nowhere. */
  lemma RemovePost(posts: seq<Post>, nextPostNo: int, nextUserNo: int, i: nat)
    requires PostsTable(posts, nextPostNo, nextUserNo) && i < |posts|
    ensures PostsTable(RemoveAt(posts, i), nextPostNo, nextUserNo)
    ensures FindPost(RemoveAt(posts, i), posts[i].postNo).None?
  {
    var t := RemoveAt(posts, i);
    forall a, b | 0 <= a < b < |t| ensures PostNo(t[a]) < PostNo(t[b]) {
      var a', b' := if a < i then a else a + 1, if b < i then b else b + 1;
      assert t[a] == posts[a'] && t[b] == posts[b'] && a' < b';
    }
    forall k | 0 <= k < |t| ensures t[k].postNo != posts[i].postNo {
      var k' := if k < i then k else k + 1;
      assert t[k] == posts[k'] && k' != i;
      if k' < i { assert PostNo(posts[k']) < PostNo(posts[i]); }
      else { assert PostNo(posts[i]) < PostNo(posts[k']); }
    }
  }

  /** The declared cascade keeps the posts table valid and leaves the owner no posts. */
  lemma CascadePosts(posts: seq<Post>, nextPostNo: int, nextUserNo: int, userNo: int)
    requires PostsTable(posts, nextPostNo, nextUserNo)
    ensures PostsTable(PostsNotOf(posts, userNo), nextPostNo, nextUserNo)
    ensures PostsOf(PostsNotOf(posts, userNo), userNo) == []
  {
    var t := PostsNotOf(posts, userNo);
    FilterKeepsOrder(posts, (p: Post) => p.userNo != userNo, PostNo);
    forall k | 0 <= k < |t| ensures 1 <= t[k].postNo < nextPostNo && 1 <= t[k].userNo < nextUserNo {
      assert t[k] in posts;
    }
    forall k | 0 <= k < |t| ensures t[k].userNo != userNo {
      assert t[k] in t;
    }
    FilterEmpty(t, (p: Post) => p.userNo == userNo);
  }

  /** For a user who owns no posts, the cascade removes nothing. */
  lemma CascadeWithoutPosts(posts: seq<Post>, userNo: int)
    ensures PostsOf(posts, userNo) == [] ==> PostsNotOf(posts, userNo) == posts
  {
    if PostsOf(posts, userNo) == [] {
      FilterEmpty(posts, (p: Post) => p.userNo == userNo);
      FilterAll(posts, (p: Post) => p.userNo != userNo);
    }
  }

  // --- Referential integrity (the foreign key of posts.user_no) ---

  /** Adding or rewriting a user, or adding a post with an existing owner, keeps every
      post's owner present. */
  lemma OwnersAfterUserInsert(posts: seq<Post>, users: seq<User>, u: User)
    requires OwnersExist(posts, users)
    ensures OwnersExist(posts, users + [u])
  {
    forall i | 0 <= i < |posts| ensures HasUser(users + [u], posts[i].userNo) {
      var j :| 0 <= j < |users| && users[j].userNo == posts[i].userNo;
      assert (users + [u])[j] == users[j];
    }
  }

  lemma OwnersAfterUserReplace(posts: seq<Post>, users: seq<User>, i: nat, u: User)
    requires OwnersExist(posts, users) && i < |users| && u.userNo == users[i].userNo
    ensures OwnersExist(posts, users[i := u])
  {
    forall k | 0 <= k < |posts| ensures HasUser(users[i := u], posts[k].userNo) {
      var j :| 0 <= j < |users| && users[j].userNo == posts[k].userNo;
      assert users[i := u][j].userNo == users[j].userNo;
    }
  }

  lemma OwnersAfterPostInsert(posts: seq<Post>, users: seq<User>, p: Post)
    requires OwnersExist(posts, users) && HasUser(users, p.userNo)
    ensures OwnersExist(posts + [p], users)
  {
    forall i | 0 <= i < |posts + [p]| ensures HasUser(users, (posts + [p])[i].userNo) {
      if i < |posts| { assert (posts + [p])[i] == posts[i]; }
    }
  }

  lemma OwnersAfterPostReplace(posts: seq<Post>, users: seq<User>, i: nat, p: Post)
    requires OwnersExist(posts, users) && i < |posts| && p.userNo == posts[i].userNo
    ensures OwnersExist(posts[i := p], users)
  {
  }

  lemma OwnersAfterPostRemove(posts: seq<Post>, users: seq<User>, i: nat)
    requires OwnersExist(posts, users) && i < |posts|
    ensures OwnersExist(RemoveAt(posts, i), users)
  {
    var t := RemoveAt(posts, i);
    forall k | 0 <= k < |t| ensures HasUser(users, t[k].userNo) {
      assert t[k] == posts[if k < i then k else k + 1];
    }
  }

  /** Deleting user `i` together with its posts (the declared ON DELETE CASCADE) keeps
      every remaining post's owner present. Without the cascade it would not. */
  lemma OwnersAfterCascade(posts: seq<Post>, users: seq<User>, i: nat)
    requires OwnersExist(posts, users) && i < |users| && Increasing(users, UserNo)
    ensures OwnersExist(PostsNotOf(posts, users[i].userNo), RemoveAt(users, i))
  {
    var t := PostsNotOf(posts, users[i].userNo);
    var rest := RemoveAt(users, i);
    forall k | 0 <= k < |t| ensures HasUser(rest, t[k].userNo) {
      assert t[k] in posts;
      var m :| 0 <= m < |posts| && posts[m] == t[k];
      var j :| 0 <= j < |users| && users[j].userNo == posts[m].userNo;
      assert j != i;
      assert users[j] in rest;
      var j' :| 0 <= j' < |rest| && rest[j'] == users[j];
    }
  }
}
