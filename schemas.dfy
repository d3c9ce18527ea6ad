/** The request and response records of app/schemas.py, their defaults, and the
    structural validation that turns a JSON body into a request record before any
    handler logic runs. */
module Schemas {
  import opened Common

  /** How one field of a JSON request body arrives. */
  datatype Field<T> = Missing | Null | Given(value: T)

  /** The validation messages for a required field that is absent or null. */
  const FIELD_REQUIRED := "field required"
  const NONE_NOT_ALLOWED := "none is not an allowed value"

  /** The schema default of `UserBase.user_sex`. */
  const DEFAULT_USER_SEX := "M"

  // --- Post schemas ---

  /** `PostBase`: the editable fields of a post; also the body of a post update. */
  datatype PostBase = PostBase(title: string, content: string) {
    /** `post.dict().items()`, in declaration order. */
    function Items(): (r: seq<PostAttr>)
      ensures DistinctPostColumns(r)
      ensures forall c: PostColumn :: WritesPost(r, c)
      ensures Title(title) in r && Content(content) in r
    {
      var r := [Title(title), Content(content)];
      assert r[0].Column() == TitleColumn && r[1].Column() == ContentColumn;
      r
    }
  }

  /** `PostCreate`: a post body names its owner. */
  datatype PostCreate = PostCreate(title: string, content: string, userNo: int)

  /** The `Post` response: the stored post with its key, date and owner. */
  datatype Post = Post(title: string, content: string, postNo: int, regDate: Timestamp, userNo: int)

  /** A post column a `setattr` from a post body can write. */
  datatype PostColumn = TitleColumn | ContentColumn

  /** One `(key, value)` pair of `PostBase.dict()`. */
  datatype PostAttr = Title(title: string) | Content(content: string) {
    function Column(): PostColumn {
      match this
      case Title(_) => TitleColumn
      case Content(_) => ContentColumn
    }
  }

  /** Some attribute of the list writes column `c`. */
  predicate WritesPost(items: seq<PostAttr>, c: PostColumn) {
    exists k :: 0 <= k < |items| && items[k].Column() == c
  }

  /** No column is written twice by one list of attributes. */
  predicate DistinctPostColumns(items: seq<PostAttr>) {
    forall i, j :: 0 <= i < j < |items| ==> items[i].Column() != items[j].Column()
  }

  // --- User schemas ---

  /** `UserBase`, which is also `UserCreate` and the body of a user update. */
  datatype UserBase = UserBase(id: string, email: string, phoneNumber: Option<string>,
                               userSex: Option<string>, userName: string) {
    /** `user.dict().items()`, in declaration order. */
    function Items(): (r: seq<UserAttr>)
      ensures DistinctUserColumns(r)
      ensures forall c: UserColumn :: WritesUser(r, c)
      ensures Id(id) in r && Email(email) in r && PhoneNumber(phoneNumber) in r
      ensures UserSex(userSex) in r && UserName(userName) in r
    {
      var r := [Id(id), Email(email), PhoneNumber(phoneNumber), UserSex(userSex), UserName(userName)];
      assert r[0].Column() == IdColumn && r[1].Column() == EmailColumn;
      assert r[2].Column() == PhoneNumberColumn && r[3].Column() == UserSexColumn;
      assert r[4].Column() == UserNameColumn;
      r
    }
  }

  type UserCreate = UserBase

  /** The `User` response: the stored user with its key, date and posts. */
  datatype User = User(id: string, email: string, phoneNumber: Option<string>,
                       userSex: Option<string>, userName: string,
                       userNo: int, regDate: Timestamp, posts: seq<Post>)

  /** A user column a `setattr` from a user body can write. */
  datatype UserColumn = IdColumn | EmailColumn | PhoneNumberColumn | UserSexColumn | UserNameColumn

  /** One `(key, value)` pair of `UserBase.dict()`. */
  datatype UserAttr =
    | Id(id: string)
    | Email(email: string)
    | PhoneNumber(phone: Option<string>)
    | UserSex(sex: Option<string>)
    | UserName(name: string)
  {
    function Column(): UserColumn {
      match this
      case Id(_) => IdColumn
      case Email(_) => EmailColumn
      case PhoneNumber(_) => PhoneNumberColumn
      case UserSex(_) => UserSexColumn
      case UserName(_) => UserNameColumn
    }
  }

  /** Some attribute of the list writes column `c`. */
  predicate WritesUser(items: seq<UserAttr>, c: UserColumn) {
    exists k :: 0 <= k < |items| && items[k].Column() == c
  }

  /** No column is written twice by one list of attributes. */
  predicate DistinctUserColumns(items: seq<UserAttr>) {
    forall i, j :: 0 <= i < j < |items| ==> items[i].Column() != items[j].Column()
  }

  // --- Structural validation ---

  /** A JSON body for the post endpoints; an update reads only `title` and `content`. */
  datatype PostBody = PostBody(title: Field<string>, content: Field<string>, userNo: Field<int>)

  /** A JSON body for the user endpoints. */
  datatype UserBody = UserBody(id: Field<string>, email: Field<string>, phoneNumber: Field<string>,
                               userSex: Field<string>, userName: Field<string>)

  /** Some error of the report names the field `loc`. */
  predicate Reports(errors: seq<FieldError>, loc: string) {
    exists e :: e in errors && e.loc == loc
  }

  /** What validation says about one required field. */
  function Required<T>(loc: string, f: Field<T>): (errors: seq<FieldError>)
    ensures errors == [] <==> f.Given?
    ensures forall e :: e in errors ==> e.loc == loc
    ensures f.Missing? ==> errors == [FieldError(loc, FIELD_REQUIRED)]
    ensures f.Null? ==> errors == [FieldError(loc, NONE_NOT_ALLOWED)]
  {
    match f
    case Missing => [FieldError(loc, FIELD_REQUIRED)]
    case Null => [FieldError(loc, NONE_NOT_ALLOWED)]
    case Given(_) => []
  }

  /** An `Optional[str]` field with a default: the default when absent, None when null. */
  function Optional(f: Field<string>, default: Option<string>): Option<string> {
    match f
    case Missing => default
    case Null => None
    case Given(v) => Some(v)
  }

  /** Validates a body against `PostBase`; any `user_no` in it is ignored. */
  function ParsePostBase(b: PostBody): (r: Result<PostBase>)
    ensures r.Ok? <==> b.title.Given? && b.content.Given?
    ensures r.Ok? ==> r.value.title == b.title.value && r.value.content == b.content.value
    ensures r.Err? ==> r.error.ValidationError?
    ensures r.Err? ==> Reports(r.error.errors, "title") == !b.title.Given?
    ensures r.Err? ==> Reports(r.error.errors, "content") == !b.content.Given?
    ensures r.Err? ==> forall e :: e in r.error.errors ==> e.loc in ["title", "content"]
    ensures r.Err? ==> (FieldError("title", FIELD_REQUIRED) in r.error.errors <==> b.title.Missing?)
    ensures r.Err? ==> (FieldError("title", NONE_NOT_ALLOWED) in r.error.errors <==> b.title.Null?)
    ensures r.Err? ==> (FieldError("content", FIELD_REQUIRED) in r.error.errors <==> b.content.Missing?)
    ensures r.Err? ==> (FieldError("content", NONE_NOT_ALLOWED) in r.error.errors <==> b.content.Null?)
  {
    var errors := Required("title", b.title) + Required("content", b.content);
    if errors != [] then Err(ValidationError(errors))
    else Ok(PostBase(b.title.value, b.content.value))
  }

  /** Validates a body against `PostCreate`: title, content and owner are all required. */
  function ParsePostCreate(b: PostBody): (r: Result<PostCreate>)
    ensures r.Ok? <==> b.title.Given? && b.content.Given? && b.userNo.Given?
    ensures r.Ok? ==> r.value == PostCreate(b.title.value, b.content.value, b.userNo.value)
    ensures r.Err? ==> r.error.ValidationError?
    ensures r.Err? ==> Reports(r.error.errors, "title") == !b.title.Given?
    ensures r.Err? ==> Reports(r.error.errors, "content") == !b.content.Given?
    ensures r.Err? ==> Reports(r.error.errors, "user_no") == !b.userNo.Given?
    ensures r.Err? ==> forall e :: e in r.error.errors ==> e.loc in ["title", "content", "user_no"]
  {
    var errors := Required("title", b.title) + Required("content", b.content) + Required("user_no", b.userNo);
    if errors != [] then Err(ValidationError(errors))
    else Ok(PostCreate(b.title.value, b.content.value, b.userNo.value))
  }

  /** Validates a body against `UserCreate`: `id`, `email` and `user_name` are required;
      an absent `phone_number` becomes None and an absent `user_sex` becomes 'M'. */
  function ParseUserCreate(b: UserBody): (r: Result<UserCreate>)
    ensures r.Ok? <==> b.id.Given? && b.email.Given? && b.userName.Given?
    ensures r.Ok? ==> r.value.id == b.id.value && r.value.email == b.email.value
    ensures r.Ok? ==> r.value.userName == b.userName.value
    ensures r.Ok? ==> r.value.phoneNumber == (if b.phoneNumber.Given? then Some(b.phoneNumber.value) else None)
    ensures r.Ok? && b.userSex.Missing? ==> r.value.userSex == Some(DEFAULT_USER_SEX)
    ensures r.Ok? && b.userSex.Null? ==> r.value.userSex == None
    ensures r.Ok? && b.userSex.Given? ==> r.value.userSex == Some(b.userSex.value)
    ensures r.Err? ==> r.error.ValidationError?
    ensures r.Err? ==> Reports(r.error.errors, "id") == !b.id.Given?
    ensures r.Err? ==> Reports(r.error.errors, "email") == !b.email.Given?
    ensures r.Err? ==> Reports(r.error.errors, "user_name") == !b.userName.Given?
    ensures r.Err? ==> forall e :: e in r.error.errors ==> e.loc in ["id", "email", "user_name"]
  {
    var errors := Required("id", b.id) + Required("email", b.email) + Required("user_name", b.userName);
    if errors != [] then Err(ValidationError(errors))
    else Ok(UserBase(b.id.value, b.email.value, Optional(b.phoneNumber, None),
                     Optional(b.userSex, Some(DEFAULT_USER_SEX)), b.userName.value))
  }

  /** The message a rejected post creation body carries for each field: "field required"
      when it is absent, "none is not an allowed value" when it is null, none when given. */
  lemma PostCreateMessages(b: PostBody)
    ensures var r := ParsePostCreate(b);
      && (r.Err? ==> (FieldError("title", FIELD_REQUIRED) in r.error.errors <==> b.title.Missing?))
      && (r.Err? ==> (FieldError("title", NONE_NOT_ALLOWED) in r.error.errors <==> b.title.Null?))
      && (r.Err? ==> (FieldError("content", FIELD_REQUIRED) in r.error.errors <==> b.content.Missing?))
      && (r.Err? ==> (FieldError("content", NONE_NOT_ALLOWED) in r.error.errors <==> b.content.Null?))
      && (r.Err? ==> (FieldError("user_no", FIELD_REQUIRED) in r.error.errors <==> b.userNo.Missing?))
      && (r.Err? ==> (FieldError("user_no", NONE_NOT_ALLOWED) in r.error.errors <==> b.userNo.Null?))
  {
  }

  /** The message a rejected user body carries for each required field: "field required"
      when it is absent, "none is not an allowed value" when it is null, none when given. */
  lemma UserCreateMessages(b: UserBody)
    ensures var r := ParseUserCreate(b);
      && (r.Err? ==> (FieldError("id", FIELD_REQUIRED) in r.error.errors <==> b.id.Missing?))
      && (r.Err? ==> (FieldError("id", NONE_NOT_ALLOWED) in r.error.errors <==> b.id.Null?))
      && (r.Err? ==> (FieldError("email", FIELD_REQUIRED) in r.error.errors <==> b.email.Missing?))
      && (r.Err? ==> (FieldError("email", NONE_NOT_ALLOWED) in r.error.errors <==> b.email.Null?))
      && (r.Err? ==> (FieldError("user_name", FIELD_REQUIRED) in r.error.errors <==> b.userName.Missing?))
      && (r.Err? ==> (FieldError("user_name", NONE_NOT_ALLOWED) in r.error.errors <==> b.userName.Null?))
  {
  }
}
