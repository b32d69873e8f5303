/** Request and response shapes for users (internal/dto/user.go). */
module UserDto {
  import opened Uuid
  import opened Models

  datatype UserRequest = UserRequest(firstName: string, lastName: string, username: string,
                                     email: string, password: string)

  datatype UserResponse = UserResponse(id: UUID, firstName: string, lastName: string,
                                       username: string, email: string)

  /** The validator's `alphanum`: one or more ASCII letters or digits. */
  predicate IsAlphanumeric(s: string)
  {
    |s| > 0 && forall i :: 0 <= i < |s| ==> ('a' <= s[i] <= 'z' || 'A' <= s[i] <= 'Z' || '0' <= s[i] <= '9')
  }

  /** The request's validation tags; `email` is the validator's address syntax, left abstract. */
  predicate Valid(r: UserRequest, isEmail: string -> bool): (v: bool)
    ensures v ==> r.firstName != "" && r.lastName != "" && r.username != "" && r.email != "" && r.password != ""
  {
    && 2 <= |r.firstName| <= 50
    && 2 <= |r.lastName| <= 50
    && 3 <= |r.username| <= 30 && IsAlphanumeric(r.username)
    && r.email != "" && isEmail(r.email)
    && 8 <= |r.password|
  }

  /** Since every address the email check admits contains an '@', no valid username is a
      valid email: the single text `LoginUser` matches against both columns can only ever
      name a username or an email, not both. */
  lemma UsernameNeverAnEmail(r: UserRequest, q: UserRequest, isEmail: string -> bool)
    requires forall e :: isEmail(e) ==> '@' in e
    requires Valid(r, isEmail) && Valid(q, isEmail)
    ensures r.username != q.email
  {
    assert '@' in q.email;
    assert '@' !in r.username by {
      forall j | 0 <= j < |r.username| ensures r.username[j] != '@' {
      }
    }
  }

  /** The model built from a request: the five request fields, a zero id and an empty salt. */
  function ToModel(r: UserRequest): (u: User)
    ensures u.id == Zero && u.salt == ""
    ensures u.firstName == r.firstName && u.lastName == r.lastName && u.username == r.username
    ensures u.email == r.email && u.password == r.password
  {
    User(Zero, r.firstName, r.lastName, r.username, r.email, r.password, "")
  }

  function UserResponseFromModel(u: User): (resp: UserResponse)
    ensures resp.id == u.id && resp.firstName == u.firstName && resp.lastName == u.lastName
    ensures resp.username == u.username && resp.email == u.email
  {
    UserResponse(u.id, u.firstName, u.lastName, u.username, u.email)
  }

  /** A response never depends on the password or the salt. */
  lemma ResponseHidesSecrets(u: User, password: string, salt: string)
    ensures UserResponseFromModel(u) == UserResponseFromModel(u.(password := password, salt := salt))
  {
  }

  /** Two users with the same response differ at most in password and salt. */
  lemma ResponseDeterminesPublicFields(u: User, v: User)
    requires UserResponseFromModel(u) == UserResponseFromModel(v)
    ensures u.(password := v.password, salt := v.salt) == v
  {
  }

  /** The response of a fresh model is the request without its password. */
  lemma RequestToResponse(r: UserRequest)
    ensures UserResponseFromModel(ToModel(r)) == UserResponse(Zero, r.firstName, r.lastName, r.username, r.email)
  {
  }

  /** Fills a slice of the list's length, element by element. */
  method UserListResponse(users: seq<User>) returns (responses: seq<UserResponse>)
    ensures |responses| == |users|
    ensures forall i :: 0 <= i < |users| ==> responses[i] == UserResponseFromModel(users[i])
  {
    var a := new UserResponse[|users|];
    var i := 0;
    while i < |users|
      invariant 0 <= i <= |users|
      invariant forall k :: 0 <= k < i ==> a[k] == UserResponseFromModel(users[k])
    {
      a[i] := UserResponseFromModel(users[i]);
      i := i + 1;
    }
    responses := a[..];
  }
}
