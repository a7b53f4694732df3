/**
 The module-level list `data_list` and the handlers of the two views,
 DemoRestApi (the collection) and DemoRestApiItem (one record by id), that
 read and change it in place.
 */
module Views {
  import opened Users
  import opened Operations
  import Properties

  class UserStore {
    /** `data_list`, in insertion order. */
    var users: seq<User>

    ghost predicate Valid()
      reads this
    {
      WellFormed(users)
    }

    /** The store as the module is loaded: three sample records appended one by one. */
    constructor (id1: string, id2: string, id3: string)
      requires id1 != "" && id2 != "" && id3 != ""
      requires id1 != id2 && id1 != id3 && id2 != id3
      ensures Valid()
      ensures users == Seed(id1, id2, id3)
    {
      users := [];
      users := users + [User(id1, "User01", "user01@example.com", JBool(true), map[])];
      users := users + [User(id2, "User02", "user02@example.com", JBool(true), map[])];
      users := users + [User(id3, "User03", "user03@example.com", JBool(false), map[])];
    }

    /** DemoRestApi.get: the active records, in store order. */
    method Get() returns (r: seq<User>)
      ensures r == ActiveUsers(users)
      ensures forall u :: u in r ==> IsTrue(u.isActive)
    {
      r := ActiveUsers(users);
    }

    /**
     DemoRestApi.post: `freshId` stands for the new uuid4, which no record
     carries yet.
     */
    method Post(freshId: string, body: Body) returns (o: Outcome)
      requires Valid()
      requires freshId != "" && Unused(users, freshId)
      requires KeysApart(body)
      modifies this
      ensures Valid()
      ensures Step(o, users) == Create(old(users), freshId, body)
    {
      Properties.CreateKeepsWellFormed(users, freshId, body);
      if body.name.None? || body.email.None? {
        return BadRequest;
      }
      if body.name.value == "" || body.email.value == "" {
        return BadRequest;
      }
      var u := User(freshId, body.name.value, body.email.value, JBool(true), body.extra);
      users := users + [u];
      o := Created(u);
    }

    /** DemoRestApiItem.get_item_by_id: the position of the first record with this id. */
    method GetItemById(itemId: string) returns (r: Option<nat>)
      ensures r == Find(users, itemId)
      ensures r.Some? ==> r.value < |users| && users[r.value].id == itemId
      ensures r.Some? ==> forall j :: 0 <= j < r.value ==> users[j].id != itemId
      ensures r.None? ==> Unused(users, itemId)
    {
      var i := 0;
      while i < |users|
        invariant 0 <= i <= |users|
        invariant forall j :: 0 <= j < i ==> users[j].id != itemId
      {
        if users[i].id == itemId {
          return Some(i);
        }
        i := i + 1;
      }
      return None;
    }

    /** DemoRestApiItem.get: ignores `itemId` and answers with every active record. */
    method GetItem(itemId: string) returns (r: seq<User>)
      ensures r == ActiveUsers(users)
      ensures forall u :: u in r ==> IsTrue(u.isActive)
    {
      r := ActiveUsers(users);
    }

    /** DemoRestApiItem.put */
    method Put(itemId: string, body: Body) returns (o: Outcome)
      requires Valid()
      modifies this
      ensures Valid()
      ensures Step(o, users) == Replace(old(users), itemId, body)
    {
      Properties.ReplaceKeepsWellFormed(users, itemId, body);
      if body.name.None? || body.email.None? {
        return BadRequest;
      }
      if body.name.value == "" || body.email.value == "" {
        return BadRequest;
      }
      var k := GetItemById(itemId);
      if k.None? {
        return NotFound;
      }
      var i := k.value;
      users := users[i := users[i].(name := body.name.value)];
      users := users[i := users[i].(email := body.email.value)];
      users := users[i := users[i].(isActive := body.isActive.GetOr(JBool(true)))];
      o := Ok(users[i]);
    }

    /** DemoRestApiItem.patch: not atomic, a name written before an email is refused stays written. */
    method Patch(itemId: string, body: Body) returns (o: Outcome)
      requires Valid()
      modifies this
      ensures Valid()
      ensures Step(o, users) == PartialUpdate(old(users), itemId, body)
    {
      Properties.PartialUpdateKeepsWellFormed(users, itemId, body);
      var k := GetItemById(itemId);
      if k.None? {
        return NotFound;
      }
      var i := k.value;
      if body.name.Some? {
        if body.name.value == "" {
          return BadRequest;
        }
        users := users[i := users[i].(name := body.name.value)];
      }
      if body.email.Some? {
        if body.email.value == "" {
          return BadRequest;
        }
        users := users[i := users[i].(email := body.email.value)];
      }
      if body.isActive.Some? {
        users := users[i := users[i].(isActive := body.isActive.value)];
      }
      o := Ok(users[i]);
    }

    /** DemoRestApiItem.delete: logical deletion. */
    method Delete(itemId: string) returns (o: Outcome)
      requires Valid()
      modifies this
      ensures Valid()
      ensures Step(o, users) == LogicalDelete(old(users), itemId)
    {
      Properties.LogicalDeleteKeepsWellFormed(users, itemId);
      var k := GetItemById(itemId);
      if k.None? {
        return NotFound;
      }
      var i := k.value;
      users := users[i := users[i].(isActive := JBool(false))];
      o := Ok(users[i]);
    }
  }
}
