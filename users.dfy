/**
 The values held by the in-memory user store of the demo REST API: the user
 records of `data_list`, the request bodies the handlers read, the outcomes
 they answer with, and the two pure computations every handler relies on —
 the filter on `is_active == True` and the linear search by id.
 */
module Users {

  datatype Option<+T> = None | Some(value: T) {
    /** The value held, or `default` when there is none (Python's `dict.get(key, default)`). */
    function GetOr(default: T): T {
      match this
      case Some(v) => v
      case None => default
    }
  }

  /**
   The JSON values a client may send for a field that the store copies
   verbatim (`is_active` in PUT and PATCH, and every extra key of a POST body).
   */
  datatype Json = JNull | JBool(b: bool) | JInt(i: int) | JStr(s: string)

  /** Python's `v == True`: it holds of the boolean true and of the number 1. */
  predicate IsTrue(v: Json) {
    v == JBool(true) || v == JInt(1)
  }

  /**
   One record of `data_list`. `extra` holds the other keys a client sent
   along with a POST body, which the store keeps in the record.
   */
  datatype User = User(id: string, name: string, email: string, isActive: Json, extra: map<string, Json>)

  /**
   A request body: `None` is a key that is absent. `extra` holds every other
   key except `id`, which POST overwrites and PUT and PATCH ignore.
   */
  datatype Body = Body(name: Option<string>, email: Option<string>, isActive: Option<Json>, extra: map<string, Json>)

  /** The keys a record always carries and that `extra` therefore never holds. */
  const ReservedKeys: set<string> := {"id", "name", "email", "is_active"}

  /**
   The body is a faithful picture of a Python dict: a key is either one of
   the named fields or an extra key, never both.
   */
  predicate KeysApart(b: Body) {
    b.extra.Keys !! ReservedKeys
  }

  /** The status of a response (201, 200, 400, 404) with the record it carries. */
  datatype Outcome = Created(user: User) | Ok(user: User) | BadRequest | NotFound

  /**
   The records a GET answers with: those whose `is_active` equals True,
   in the order of the store.
   */
  function ActiveUsers(s: seq<User>): (r: seq<User>)
    ensures |r| <= |s|
    ensures forall k :: 0 <= k < |r| ==> IsTrue(r[k].isActive)
  {
    if s == [] then []
    else if IsTrue(s[0].isActive) then [s[0]] + ActiveUsers(s[1..])
    else ActiveUsers(s[1..])
  }

  /** The position of the first record whose id is `id`, if there is one. */
  function Find(s: seq<User>, id: string): (r: Option<nat>)
    ensures r.Some? ==> r.value < |s| && s[r.value].id == id
    ensures r.Some? ==> forall j :: 0 <= j < r.value ==> s[j].id != id
    ensures r.None? <==> forall j :: 0 <= j < |s| ==> s[j].id != id
  {
    if s == [] then None
    else if s[0].id == id then Some(0)
    else match Find(s[1..], id)
      case None => None
      case Some(i) => Some(i + 1)
  }

  /** No record of `s` has the id `id`. */
  predicate Unused(s: seq<User>, id: string) {
    forall j :: 0 <= j < |s| ==> s[j].id != id
  }

  /**
   What the store keeps true: every id, name and email is non-empty, no extra
   key shadows a named field, and no two records share an id.
   */
  predicate WellFormed(s: seq<User>) {
    (forall i :: 0 <= i < |s| ==> s[i].id != "" && s[i].name != "" && s[i].email != "") &&
    (forall i :: 0 <= i < |s| ==> s[i].extra.Keys !! ReservedKeys) &&
    (forall i, j :: 0 <= i < j < |s| ==> s[i].id != s[j].id)
  }

  /** The three sample records `data_list` starts with; the third is inactive. */
  function Seed(id1: string, id2: string, id3: string): seq<User> {
    [ User(id1, "User01", "user01@example.com", JBool(true), map[]),
      User(id2, "User02", "user02@example.com", JBool(true), map[]),
      User(id3, "User03", "user03@example.com", JBool(false), map[]) ]
  }
}
