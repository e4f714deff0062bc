/**
 * Users (Projeto/models/user.py): the abstract `User` with its two kinds, `Client`
 * and `Administrator`, written here as one tagged datatype.
 */
module Users {
  import opened Wrappers
  import Json
  import Repository

  datatype User =
    | Client(id: int, name: string, email: string, password: string, address: string, phone: string)
    | Administrator(id: int, name: string, email: string, password: string, accessLevel: int)

  function Id(u: User): int { u.id }

  function Email(u: User): string { u.email }

  /** No two users share an email. */
  ghost predicate EmailsUnique(users: seq<User>) {
    forall i, j :: 0 <= i < j < |users| ==> users[i].email != users[j].email
  }

  /** The users file: the ordered list of user records. */
  class UserFile {
    var rows: seq<User>

    constructor (rows0: seq<User>)
      ensures rows == rows0
    {
      rows := rows0;
    }
  }

  /** `login`: the credentials are accepted exactly when both match the stored ones. */
  function Login(u: User, email: string, password: string): (ok: bool)
    ensures ok <==> Email(u) == email && u.password == password
  {
    u.email == email && u.password == password
  }

  /** `get_type`: "client" for a client, "admin" for an administrator. */
  function GetType(u: User): (t: string)
    ensures t == "client" <==> u.Client?
    ensures t == "admin" <==> u.Administrator?
  {
    match u
    case Client(_, _, _, _, _, _) => "client"
    case Administrator(_, _, _, _, _) => "admin"
  }

  /** `to_dict`, with the type tag written under "type". */
  function ToDict(u: User): (d: Json.Object)
    ensures u.Client? ==> d.Keys == {"id", "type", "name", "email", "password", "address", "phone"}
    ensures u.Administrator? ==> d.Keys == {"id", "type", "name", "email", "password", "access_level"}
    ensures d["id"] == Json.Int(u.id) && d["email"] == Json.Str(u.email)
  {
    match u
    case Client(id, name, email, password, address, phone) =>
      map["id" := Json.Int(id), "type" := Json.Str("client"), "name" := Json.Str(name),
          "email" := Json.Str(email), "password" := Json.Str(password),
          "address" := Json.Str(address), "phone" := Json.Str(phone)]
    case Administrator(id, name, email, password, accessLevel) =>
      map["id" := Json.Int(id), "type" := Json.Str("admin"), "name" := Json.Str(name),
          "email" := Json.Str(email), "password" := Json.Str(password),
          "access_level" := Json.Int(accessLevel)]
  }

  /**
   * `from_dict`: dispatch on the type tag; "client" builds a client, "admin" an
   * administrator, any other tag gives None. Every field is read with `data[key]`.
   */
  function FromDict(d: Json.Object): (r: Result<Option<User>, Json.DecodeError>)
    ensures "type" !in d ==> r == Failure(Json.MissingKey("type"))
    ensures "type" in d && d["type"] != Json.Str("client") && d["type"] != Json.Str("admin") ==> r == Success(None)
    ensures r.Success? && r.value.Some? ==> d["type"] == Json.Str(GetType(r.value.value))
  {
    if "type" !in d then Failure(Json.MissingKey("type"))
    else if d["type"] == Json.Str("client") then
      var id :- Json.GetInt(d, "id");
      var name :- Json.GetStr(d, "name");
      var email :- Json.GetStr(d, "email");
      var password :- Json.GetStr(d, "password");
      var address :- Json.GetStr(d, "address");
      var phone :- Json.GetStr(d, "phone");
      Success(Some(Client(id, name, email, password, address, phone)))
    else if d["type"] == Json.Str("admin") then
      var id :- Json.GetInt(d, "id");
      var name :- Json.GetStr(d, "name");
      var email :- Json.GetStr(d, "email");
      var password :- Json.GetStr(d, "password");
      var accessLevel :- Json.GetInt(d, "access_level");
      Success(Some(Administrator(id, name, email, password, accessLevel)))
    else Success(None)
  }

  /** `from_dict(to_dict(u))` gives back the same user, of the same kind. */
  lemma FromDictToDict(u: User)
    ensures FromDict(ToDict(u)) == Success(Some(u))
    ensures ToDict(u)["type"] == Json.Str(GetType(u))
  {
  }

  /** `get_next_id`: `max(ids, default=0) + 1`, that is 1 for an empty file and the largest id plus one otherwise. */
  function NextId(rows: seq<User>): (n: int)
    ensures rows == [] ==> n == 1
    ensures forall k :: 0 <= k < |rows| ==> rows[k].id < n
    ensures rows != [] ==> exists k :: 0 <= k < |rows| && rows[k].id == n - 1
  {
    Repository.NextId(rows, Id, 1)
  }

  /** `find_by_id`: the first user with that id, or None. */
  function FindById(rows: seq<User>, id: int): (r: Option<User>)
    ensures r.Some? ==> r.value.id == id && r.value in rows
    ensures r.None? <==> forall k :: 0 <= k < |rows| ==> rows[k].id != id
    ensures r.Some? ==> exists i :: 0 <= i < |rows| && rows[i] == r.value
                          && forall j :: 0 <= j < i ==> rows[j].id != id
  {
    Repository.Find(rows, Id, id)
  }

  /** `find_by_email`: the first user with that email, or None. */
  function FindByEmail(rows: seq<User>, email: string): (r: Option<User>)
    ensures r.Some? ==> r.value.email == email && r.value in rows
    ensures r.None? <==> forall k :: 0 <= k < |rows| ==> rows[k].email != email
    ensures r.Some? ==> exists i :: 0 <= i < |rows| && rows[i] == r.value
                          && forall j :: 0 <= j < i ==> rows[j].email != email
  {
    Repository.Find(rows, Email, email)
  }

  /** `save`: replace the user with the same id in place, or append it. */
  method Save(file: UserFile, u: User)
    modifies file
    ensures file.rows == Repository.Upsert(old(file.rows), Id, u)
    ensures FindById(file.rows, u.id) == Some(u)
  {
    file.rows := Repository.SaveRow(file.rows, Id, u);
    Repository.FindAfterUpsert(old(file.rows), Id, u);
  }

  /** `Client.create`: a client with id `get_next_id()`, appended to the file. */
  method CreateClient(file: UserFile, name: string, email: string, password: string,
                      address: string, phone: string) returns (u: User)
    modifies file
    ensures u == Client(NextId(old(file.rows)), name, email, password, address, phone)
    ensures file.rows == old(file.rows) + [u]
  {
    u := Client(NextId(file.rows), name, email, password, address, phone);
    Repository.SaveNewAppends(file.rows, Id, 1, u);
    Save(file, u);
  }

  /** `Administrator.create`: an administrator with id `get_next_id()`, appended to the file. */
  method CreateAdministrator(file: UserFile, name: string, email: string, password: string,
                             accessLevel: int) returns (u: User)
    modifies file
    ensures u == Administrator(NextId(old(file.rows)), name, email, password, accessLevel)
    ensures file.rows == old(file.rows) + [u]
  {
    u := Administrator(NextId(file.rows), name, email, password, accessLevel);
    Repository.SaveNewAppends(file.rows, Id, 1, u);
    Save(file, u);
  }
}
