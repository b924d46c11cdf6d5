/** The custom User table: field bounds, the username pattern ^[\w.@+-]+\Z, and the uniqueness
    of usernames and emails across all users. */
module UserModels {
  import opened Common

  const EmailMax := 254
  const UsernameMax := 150
  const PersonNameMax := 150

  /** A user row; `avatar` is a stored file reference and may be null. */
  datatype User = User(email: string, username: string, firstName: string, lastName: string,
                       avatar: Option<string>)

  /** Python's \w restricted to ASCII: a letter, a digit or '_'. */
  predicate IsWordChar(c: char) {
    ('a' <= c <= 'z') || ('A' <= c <= 'Z') || ('0' <= c <= '9') || c == '_'
  }

  predicate IsUsernameChar(c: char) {
    IsWordChar(c) || c == '.' || c == '@' || c == '+' || c == '-'
  }

  /** The RegexValidator ^[\w.@+-]+\Z: one or more characters, each from the class. */
  predicate UsernameMatches(s: string) {
    |s| > 0 && forall i :: 0 <= i < |s| ==> IsUsernameChar(s[i])
  }

  /** The field validators of one user: email non-blank and at most 254 characters, username
      matching the pattern and at most 150, first and last name at most 150 and possibly blank;
      the avatar is optional and so unconstrained. */
  predicate ValidUser(u: User) {
    && 0 < |u.email| <= EmailMax
    && |u.username| <= UsernameMax && UsernameMatches(u.username)
    && |u.firstName| <= PersonNameMax
    && |u.lastName| <= PersonNameMax
  }

  /** unique=True on username and on email. */
  ghost predicate UniqueUsers(users: map<UserId, User>) {
    forall a, b :: a in users && b in users && a != b ==>
      users[a].username != users[b].username && users[a].email != users[b].email
  }

  predicate UsernameTaken(users: map<UserId, User>, username: string) {
    exists id :: id in users && users[id].username == username
  }

  predicate EmailTaken(users: map<UserId, User>, email: string) {
    exists id :: id in users && users[id].email == email
  }

  /** The checks a new user passes before it is saved: its own field validators and the two
      uniqueness constraints against the users already stored. A rejection is a 400. */
  function ValidateUser(users: map<UserId, User>, u: User): (r: Result<User>)
    ensures r.Success? <==>
              ValidUser(u) && !UsernameTaken(users, u.username) && !EmailTaken(users, u.email)
    ensures r.Success? ==> r.value == u
    ensures r.Failure? ==> r.response.status == BadRequest
  {
    if !ValidUser(u) || UsernameTaken(users, u.username) || EmailTaken(users, u.email)
    then Failure(Response(BadRequest, ""))
    else Success(u)
  }

  /** A user that passed ValidateUser can be stored under a new key without breaking the
      uniqueness of usernames and emails. */
  lemma {:induction false} ValidatedUserKeepsUnique(users: map<UserId, User>, id: UserId, u: User)
    requires UniqueUsers(users)
    requires id !in users
    requires ValidateUser(users, u).Success?
    ensures UniqueUsers(users[id := u])
  {
    var m := users[id := u];
    forall a, b | a in m && b in m && a != b
      ensures m[a].username != m[b].username && m[a].email != m[b].email
    {
      if a == id {
        assert m[b] == users[b];
      } else if b == id {
        assert m[a] == users[a];
      }
    }
  }

  /** Dropping users keeps the rest unique. */
  lemma RemovingUsersKeepsUnique(users: map<UserId, User>, gone: set<UserId>)
    requires UniqueUsers(users)
    ensures UniqueUsers(users - gone)
  {
  }
}
