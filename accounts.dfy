/** The `usersById` route: for every requested account id it asks the
    identity service for the account and projects the requested fields out of
    it; a lookup that fails becomes an error node for that id alone. */
module Accounts {
  import opened Protocol

  /** A JSON value as the identity service returns it. */
  datatype Json =
    | JNull
    | JBool(b: bool)
    | JNumber(n: int)
    | JString(s: string)
    | JArray(items: seq<Json>)
    | JObject(members: map<string, Json>)

  /** An account record; a field the record lacks reads as `undefined`. */
  type Record = map<string, Json>

  /** Answer of `GET /accounts/:id {key, id}`: an account record; an error,
      which the handler's `.catch` turns into an error node; or a response
      whose `data` is missing, so that reading a field of it raises a
      `TypeError` with the given message. */
  datatype AccountAnswer =
    | Account(user: Record)
    | AccountRejected(message: string)
    | AccountMissing(message: string)

  /** The patch produced for one requested id:
      `usersById: {[id]: {$merge: attrs}}` or
      `usersById: {[id]: {$set: {$error: message}}}`. */
  datatype UserPatch = Merge(id: int, attrs: Record) | SetError(id: int, message: string)

  /** `user[field]`, with `undefined` replaced by `null`: a field the account
      holds is read as it is, and a field it lacks reads as `null`. */
  function FieldOf(user: Record, field: string): (v: Json)
    ensures field in user ==> v == user[field]
    ensures field !in user ==> v == JNull
  {
    if field in user then user[field] else JNull
  }

  /** The `fields.reduce(...)` fold: an object holding exactly the requested
      fields, each with the account's value or `null` where it has none. */
  function Project(user: Record, fields: seq<string>): (attrs: Record)
    ensures attrs.Keys == set f | f in fields
    ensures forall f :: f in attrs ==> attrs[f] == FieldOf(user, f)
  {
    if fields == [] then map[]
    else
      var f := fields[|fields| - 1];
      Project(user, fields[..|fields| - 1])[f := FieldOf(user, f)]
  }

  /** The patch for one id, from the identity service's answer for it: the
      projected fields of an account, or an error node when the lookup
      failed or reading the first requested field raised. With no requested
      fields nothing is read, so a missing record still yields an empty
      merge. */
  function AccountPatch(id: int, answer: AccountAnswer, fields: seq<string>): (p: UserPatch)
    ensures p.id == id
    ensures p.Merge? <==> answer.Account? || (answer.AccountMissing? && fields == [])
    ensures answer.Account? ==>
      p.attrs.Keys == (set f | f in fields) &&
      forall f :: f in fields ==> p.attrs[f] == FieldOf(answer.user, f)
    ensures answer.AccountMissing? && fields == [] ==> p.attrs == map[]
    ensures p.SetError? ==> p.message == answer.message
  {
    match answer
    case Account(user) => Merge(id, Project(user, fields))
    case AccountRejected(message) => SetError(id, message)
    case AccountMissing(message) => if fields == [] then Merge(id, map[]) else SetError(id, message)
  }

  /** The `usersById.$keys.$keys` handler, given the requesting socket's key
      and the identity service as `account(key, id)`. Without a key it throws
      `AUTH_REQUIRED`; otherwise it yields one patch per requested id, in
      order, each decided by that id's lookup alone: a failure while fetching
      or reading one account never fails the others. */
  function UsersById(key: string, ids: seq<int>, fields: seq<string>,
                     account: (string, int) -> AccountAnswer): (r: Outcome<seq<UserPatch>>)
    ensures r.Fail? <==> key == ""
    ensures r.Fail? ==> r.error == AuthRequired
    ensures r.Ok? ==> |r.value| == |ids|
    ensures r.Ok? ==> forall i :: 0 <= i < |ids| ==>
      match account(key, ids[i])
      case Account(user) =>
        && r.value[i].Merge?
        && r.value[i].id == ids[i]
        && r.value[i].attrs.Keys == (set f | f in fields)
        && forall f :: f in fields ==> r.value[i].attrs[f] == FieldOf(user, f)
      case AccountRejected(message) =>
        r.value[i] == SetError(ids[i], message)
      case AccountMissing(message) =>
        r.value[i] == if fields == [] then Merge(ids[i], map[]) else SetError(ids[i], message)
  {
    if key == "" then Fail(AuthRequired)
    else Ok(seq(|ids|, i requires 0 <= i < |ids| => AccountPatch(ids[i], account(key, ids[i]), fields)))
  }
}
