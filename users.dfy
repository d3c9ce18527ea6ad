/** The business rules of app/routers/users.py that do not touch the store: the error
    each handler can raise, the uniqueness pre-checks in their order, and the `setattr`
    loop of `update_user`. */
module Users {
  import opened Common
  import Schemas
  import Models

  const ID_TAKEN: Error := HttpError(400, "ID already registered")
  const EMAIL_TAKEN: Error := HttpError(400, "Email already registered")
  const USER_NOT_FOUND: Error := HttpError(404, "User not found")
  /** What the store raises at commit when another row holds the phone number. */
  const PHONE_TAKEN: Error := IntegrityError("UNIQUE constraint failed: users.phone_number")

  /** The pre-checks of `create_user`: the `id` first, then the `email`. */
  function CreateCheck(users: seq<Models.User>, req: Schemas.UserCreate): (r: Option<Error>)
    ensures r == Some(ID_TAKEN) <==> exists i :: 0 <= i < |users| && users[i].id == req.id
    ensures r == Some(EMAIL_TAKEN) <==>
      (forall i :: 0 <= i < |users| ==> users[i].id != req.id) &&
      (exists i :: 0 <= i < |users| && users[i].email == req.email)
    ensures r.None? <==> forall i :: 0 <= i < |users| ==> users[i].id != req.id && users[i].email != req.email
    ensures r.None? ==> Models.FindUser(users, Models.ById(req.id)).None?
    ensures r.None? ==> Models.FindUser(users, Models.ByEmail(req.email)).None?
  {
    if Models.FindUser(users, Models.ById(req.id)).Some? then Some(ID_TAKEN)
    else if Models.FindUser(users, Models.ByEmail(req.email)).Some? then Some(EMAIL_TAKEN)
    else None
  }

  /** The pre-checks of `update_user` on row `i`: a changed `id`, then a changed `email`,
      must not be found in the table. */
  function UpdateCheck(users: seq<Models.User>, i: nat, req: Schemas.UserBase): (r: Option<Error>)
    requires i < |users|
    ensures r == Some(ID_TAKEN) <==>
      req.id != users[i].id && exists j :: 0 <= j < |users| && users[j].id == req.id
    ensures r == Some(EMAIL_TAKEN) <==>
      (req.id == users[i].id || forall j :: 0 <= j < |users| ==> users[j].id != req.id) &&
      req.email != users[i].email && (exists j :: 0 <= j < |users| && users[j].email == req.email)
    ensures r.None? ==> req.id == users[i].id || Models.FindUser(users, Models.ById(req.id)).None?
    ensures r.None? ==> req.email == users[i].email || Models.FindUser(users, Models.ByEmail(req.email)).None?
    ensures r.None? || r == Some(ID_TAKEN) || r == Some(EMAIL_TAKEN)
  {
    if req.id != users[i].id && Models.FindUser(users, Models.ById(req.id)).Some? then Some(ID_TAKEN)
    else if req.email != users[i].email && Models.FindUser(users, Models.ByEmail(req.email)).Some? then Some(EMAIL_TAKEN)
    else None
  }

  /** With `id` and `email` unique, the update pre-checks reject exactly the requests that
      would take another user's `id` (or, that failing, `email`); keeping one's own passes. */
  lemma {:induction false} UpdateCheckMeansAnotherUser(users: seq<Models.User>, i: nat, req: Schemas.UserBase)
    requires Models.IdsUnique(users) && Models.EmailsUnique(users) && i < |users|
    ensures UpdateCheck(users, i, req) == Some(ID_TAKEN) <==>
      exists j :: 0 <= j < |users| && j != i && users[j].id == req.id
    ensures UpdateCheck(users, i, req) == Some(EMAIL_TAKEN) <==>
      (forall j :: 0 <= j < |users| && j != i ==> users[j].id != req.id) &&
      (exists j :: 0 <= j < |users| && j != i && users[j].email == req.email)
    ensures UpdateCheck(users, i, req).None? <==>
      forall j :: 0 <= j < |users| && j != i ==> users[j].id != req.id && users[j].email != req.email
  {
    if req.id == users[i].id {
      forall j | 0 <= j < |users| && j != i ensures users[j].id != req.id {
        if j < i { assert users[j].id != users[i].id; } else { assert users[i].id != users[j].id; }
      }
    }
    if req.email == users[i].email {
      forall j | 0 <= j < |users| && j != i ensures users[j].email != req.email {
        if j < i { assert users[j].email != users[i].email; } else { assert users[i].email != users[j].email; }
      }
    }
  }

  /** The same, with "another user" read as "another key": the `id` error of an update
      occurs exactly when a user with a different `user_no` holds the requested `id`. */
  lemma UpdateCheckByKey(users: seq<Models.User>, i: nat, req: Schemas.UserBase)
    requires Models.IdsUnique(users) && Models.EmailsUnique(users) && i < |users|
    requires forall j :: 0 <= j < |users| ==> (users[j].userNo == users[i].userNo <==> j == i)
    ensures UpdateCheck(users, i, req) == Some(ID_TAKEN) <==>
      exists j :: 0 <= j < |users| && users[j].userNo != users[i].userNo && users[j].id == req.id
  {
    UpdateCheckMeansAnotherUser(users, i, req);
  }

  /** `for key, value in user.dict().items(): setattr(db_user, key, value)`. */
  method SetUserAttrs(row: Models.User, items: seq<Schemas.UserAttr>) returns (r: Models.User)
    requires Schemas.DistinctUserColumns(items)
    ensures r.userNo == row.userNo && r.regDate == row.regDate
    ensures forall a :: a in items ==> Models.Get(r, a.Column()) == a
    ensures forall c :: !Schemas.WritesUser(items, c) ==> Models.Get(r, c) == Models.Get(row, c)
  {
    r := row;
    for k := 0 to |items|
      invariant r.userNo == row.userNo && r.regDate == row.regDate
      invariant forall j :: 0 <= j < k ==> Models.Get(r, items[j].Column()) == items[j]
      invariant forall c :: !Schemas.WritesUser(items[..k], c) ==> Models.Get(r, c) == Models.Get(row, c)
    {
      r := Models.SetAttr(r, items[k]);
      assert forall c :: Schemas.WritesUser(items[..k], c) ==> Schemas.WritesUser(items[..k + 1], c);
    }
    assert items[..|items|] == items;
  }

  /** Once every pair of `user.dict()` is written, the row is the full replacement: every
      editable column from the request, the key and `reg_date` kept. */
  lemma SetAllUserAttrs(row: Models.User, req: Schemas.UserBase, r: Models.User)
    requires r.userNo == row.userNo && r.regDate == row.regDate
    requires forall a :: a in req.Items() ==> Models.Get(r, a.Column()) == a
    ensures r == Models.Replaced(row, req)
  {
    var items := req.Items();
    var want := Models.Replaced(row, req);
    assert Models.Get(r, Schemas.IdColumn) == Schemas.Id(req.id);
    assert Models.Get(r, Schemas.EmailColumn) == Schemas.Email(req.email);
    assert Models.Get(r, Schemas.PhoneNumberColumn) == Schemas.PhoneNumber(req.phoneNumber);
    assert Models.Get(r, Schemas.UserSexColumn) == Schemas.UserSex(req.userSex);
    assert Models.Get(r, Schemas.UserNameColumn) == Schemas.UserName(req.userName);
    forall c ensures Models.Get(r, c) == Models.Get(want, c) {
    }
    Models.UserDeterminedByColumns(r, want);
  }
}
