/**
 What the handlers of the user store promise, stated over the step functions
 of Operations: the order of the checks, the fields each write touches, and
 that every other record is left as it was.
 */
module Properties {
  import opened Users
  import opened Operations

  // ---------------------------------------------------------------- listing

  /** The filter keeps store order: listing a concatenation lists each part in turn. */
  lemma {:induction false} ActiveUsersAppend(a: seq<User>, b: seq<User>)
    ensures ActiveUsers(a + b) == ActiveUsers(a) + ActiveUsers(b)
  {
    if a != [] {
      assert (a + b)[1..] == a[1..] + b;
      ActiveUsersAppend(a[1..], b);
    } else {
      assert a + b == b;
    }
  }

  /** A record is listed iff it is in the store and its `is_active` equals True. */
  lemma {:induction false} ActiveUsersMembers(s: seq<User>)
    ensures forall u :: u in ActiveUsers(s) <==> u in s && IsTrue(u.isActive)
  {
    if s != [] {
      ActiveUsersMembers(s[1..]);
      assert forall u :: u in s <==> u == s[0] || u in s[1..];
    }
  }

  /** Listing a store split around position `i` lists the part before, then `s[i]` if active, then the rest. */
  lemma ActiveUsersAround(s: seq<User>, i: nat)
    requires i < |s|
    ensures ActiveUsers(s) == ActiveUsers(s[..i]) + ActiveUsers([s[i]]) + ActiveUsers(s[i + 1..])
  {
    SplitAt(s, i);
    ActiveUsersAppend(s[..i] + [s[i]], s[i + 1..]);
    ActiveUsersAppend(s[..i], [s[i]]);
  }

  lemma SplitAt(s: seq<User>, i: nat)
    requires i < |s|
    ensures s == s[..i] + [s[i]] + s[i + 1..]
  {
  }

  // ----------------------------------------------------------------- lookup

  /** A write that keeps every id in place does not move what a lookup finds. */
  lemma FindKeepsPosition(s: seq<User>, t: seq<User>, id: string)
    requires |s| == |t|
    requires forall j :: 0 <= j < |s| ==> s[j].id == t[j].id
    ensures Find(t, id) == Find(s, id)
  {
  }

  /** In a well-formed store an id is found at its one position. */
  lemma FindUnique(s: seq<User>, id: string, i: nat)
    requires WellFormed(s)
    requires i < |s| && s[i].id == id
    ensures Find(s, id) == Some(i)
  {
  }

  // ----------------------------------------------------------------- create

  /** POST refuses exactly the bodies without a non-empty name and email, and then changes nothing. */
  lemma CreateRefuses(s: seq<User>, freshId: string, b: Body)
    requires KeysApart(b)
    ensures Create(s, freshId, b).outcome.BadRequest? <==> !ValidBody(b)
    ensures Create(s, freshId, b).outcome.BadRequest? ==> Create(s, freshId, b).users == s
    ensures !Create(s, freshId, b).outcome.BadRequest? ==> Create(s, freshId, b).outcome.Created?
  {
  }

  /**
   A valid POST appends one record at the end, with the new id, the body's
   name, email and extra keys, and `is_active` true whatever the client sent;
   the listing then ends with it.
   */
  lemma CreateAppends(s: seq<User>, freshId: string, b: Body)
    requires ValidBody(b) && KeysApart(b)
    ensures var r := Create(s, freshId, b);
      r.outcome.Created? &&
      |r.users| == |s| + 1 && r.users[..|s|] == s && r.users[|s|] == r.outcome.user &&
      r.outcome.user == User(freshId, b.name.value, b.email.value, JBool(true), b.extra) &&
      ActiveUsers(r.users) == ActiveUsers(s) + [r.outcome.user]
  {
    var u := User(freshId, b.name.value, b.email.value, JBool(true), b.extra);
    assert (s + [u])[..|s|] == s;
    ActiveUsersAppend(s, [u]);
  }

  /** The created record is the one a later lookup of its (unused) id finds. */
  lemma CreateThenFind(s: seq<User>, freshId: string, b: Body)
    requires ValidBody(b) && KeysApart(b) && Unused(s, freshId)
    ensures Find(Create(s, freshId, b).users, freshId) == Some(|s|)
  {
    var u := User(freshId, b.name.value, b.email.value, JBool(true), b.extra);
    assert (s + [u])[|s|] == u;
    assert forall j :: 0 <= j < |s| ==> (s + [u])[j] == s[j];
  }

  /** A valid POST with an unused, non-empty id keeps the store well formed. */
  lemma CreateKeepsWellFormed(s: seq<User>, freshId: string, b: Body)
    requires WellFormed(s) && freshId != "" && Unused(s, freshId) && KeysApart(b)
    ensures WellFormed(Create(s, freshId, b).users)
  {
  }

  // ---------------------------------------------------------------- replace

  /**
   PUT checks the body before the id: an invalid body is refused even for an
   unknown id, not-found is only for a valid body, and neither changes the store.
   */
  lemma ReplaceChecksBodyFirst(s: seq<User>, id: string, b: Body)
    ensures Replace(s, id, b).outcome.BadRequest? <==> !ValidBody(b)
    ensures Replace(s, id, b).outcome.NotFound? <==> ValidBody(b) && Find(s, id).None?
    ensures Replace(s, id, b).outcome.Ok? <==> ValidBody(b) && Find(s, id).Some?
    ensures !Replace(s, id, b).outcome.Ok? ==> Replace(s, id, b).users == s
  {
  }

  /**
   A successful PUT overwrites name and email from the body and `is_active`
   with the value sent or true, keeps the id and extra keys, and leaves every
   other record alone; the record is still found at the same place.
   */
  lemma ReplaceOverwrites(s: seq<User>, id: string, b: Body, i: nat)
    requires ValidBody(b) && Find(s, id) == Some(i)
    ensures var r := Replace(s, id, b);
      |r.users| == |s| && r.outcome == Ok(r.users[i]) &&
      r.users[i] == User(s[i].id, b.name.value, b.email.value,
                         if b.isActive.Some? then b.isActive.value else JBool(true), s[i].extra) &&
      (forall j :: 0 <= j < |s| && j != i ==> r.users[j] == s[j]) &&
      Find(r.users, id) == Some(i)
  {
    var r := Replace(s, id, b);
    FindKeepsPosition(s, r.users, id);
  }

  /** PUT keeps the store well formed. */
  lemma ReplaceKeepsWellFormed(s: seq<User>, id: string, b: Body)
    requires WellFormed(s)
    ensures WellFormed(Replace(s, id, b).users)
  {
  }

  // ------------------------------------------------------------------ patch

  /** PATCH looks up the id before it looks at any field: an unknown id is not found whatever the body. */
  lemma PartialUpdateLooksUpFirst(s: seq<User>, id: string, b: Body)
    requires Find(s, id).None?
    ensures PartialUpdate(s, id, b) == Step(NotFound, s)
  {
  }

  /**
   PATCH refuses exactly an empty name or email on a known id; a refused
   PATCH leaves the store as it was, except that a non-empty name sent with
   an empty email has already been written.
   */
  lemma PartialUpdateRefuses(s: seq<User>, id: string, b: Body)
    ensures PartialUpdate(s, id, b).outcome.BadRequest? <==>
              Find(s, id).Some? && (b.name == Some("") || b.email == Some(""))
    ensures PartialUpdate(s, id, b).outcome.Ok? <==>
              Find(s, id).Some? && b.name != Some("") && b.email != Some("")
    ensures b.name == Some("") ==> PartialUpdate(s, id, b).users == s
    ensures b.name.None? && PartialUpdate(s, id, b).outcome.BadRequest? ==> PartialUpdate(s, id, b).users == s
    ensures PartialUpdate(s, id, b).outcome.BadRequest? ==>
              PartialUpdate(s, id, b).users == s ||
              (b.name.Some? && Find(s, id).Some? &&
               PartialUpdate(s, id, b).users == s[Find(s, id).value := s[Find(s, id).value].(name := b.name.value)])
  {
  }

  /**
   A successful PATCH takes each field from the body when it is present,
   `is_active` verbatim, keeps every absent field, the id and extra keys, and
   leaves every other record alone.
   */
  lemma PartialUpdateApplies(s: seq<User>, id: string, b: Body, i: nat)
    requires Find(s, id) == Some(i)
    requires b.name != Some("") && b.email != Some("")
    ensures var r := PartialUpdate(s, id, b);
      |r.users| == |s| && r.outcome == Ok(r.users[i]) &&
      r.users[i] == User(s[i].id, b.name.GetOr(s[i].name), b.email.GetOr(s[i].email),
                         b.isActive.GetOr(s[i].isActive), s[i].extra) &&
      (forall j :: 0 <= j < |s| && j != i ==> r.users[j] == s[j]) &&
      Find(r.users, id) == Some(i)
  {
    var r := PartialUpdate(s, id, b);
    FindKeepsPosition(s, r.users, id);
  }

  /**
   PATCH is not atomic: with a non-empty name and an empty email it answers
   bad-request, yet the new name has been written to the record.
   */
  lemma PartialUpdateNotAtomic(s: seq<User>, id: string, b: Body, i: nat)
    requires Find(s, id) == Some(i)
    requires b.name.Some? && b.name.value != "" && b.email == Some("")
    ensures var r := PartialUpdate(s, id, b);
      r.outcome.BadRequest? && r.users == s[i := s[i].(name := b.name.value)] &&
      (b.name.value != s[i].name ==> r.users != s)
  {
    var r := PartialUpdate(s, id, b);
    if b.name.value != s[i].name {
      assert r.users[i].name != s[i].name;
    }
  }

  /** PATCH keeps the store well formed, whether it succeeds or stops half way. */
  lemma PartialUpdateKeepsWellFormed(s: seq<User>, id: string, b: Body)
    requires WellFormed(s)
    ensures WellFormed(PartialUpdate(s, id, b).users)
  {
  }

  // ----------------------------------------------------------------- delete

  /** DELETE of an unknown id answers not-found and changes nothing. */
  lemma LogicalDeleteUnknown(s: seq<User>, id: string)
    requires Find(s, id).None?
    ensures LogicalDelete(s, id) == Step(NotFound, s)
  {
  }

  /**
   DELETE of a known id clears only that record's `is_active`: the record
   stays at its place and is still found, and the length is unchanged.
   */
  lemma LogicalDeleteMarks(s: seq<User>, id: string, i: nat)
    requires Find(s, id) == Some(i)
    ensures var r := LogicalDelete(s, id);
      |r.users| == |s| && r.outcome == Ok(r.users[i]) &&
      r.users[i] == s[i].(isActive := JBool(false)) &&
      (forall j :: 0 <= j < |s| && j != i ==> r.users[j] == s[j]) &&
      Find(r.users, id) == Some(i)
  {
    FindKeepsPosition(s, LogicalDelete(s, id).users, id);
  }

  /** After DELETE of a known id the listing is the old one without that record. */
  lemma LogicalDeleteUnlists(s: seq<User>, id: string, i: nat)
    requires Find(s, id) == Some(i)
    ensures ActiveUsers(LogicalDelete(s, id).users) == ActiveUsers(s[..i]) + ActiveUsers(s[i + 1..])
  {
    var t := s[i := s[i].(isActive := JBool(false))];
    assert LogicalDelete(s, id).users == t;
    ActiveUsersAround(t, i);
    assert t[..i] == s[..i];
    assert t[i + 1..] == s[i + 1..];
    assert ActiveUsers([t[i]]) == [];
    assert ActiveUsers(t[..i]) + [] == ActiveUsers(t[..i]);
  }

  /** After DELETE in a well-formed store no listed record has the deleted id. */
  lemma LogicalDeleteHides(s: seq<User>, id: string)
    requires WellFormed(s)
    ensures forall u :: u in ActiveUsers(LogicalDelete(s, id).users) ==> u.id != id
  {
    var r := LogicalDelete(s, id);
    ActiveUsersMembers(r.users);
    assert forall k :: 0 <= k < |r.users| && r.users[k].id == id ==> r.users[k].isActive == JBool(false);
  }

  /** DELETE keeps the store well formed. */
  lemma LogicalDeleteKeepsWellFormed(s: seq<User>, id: string)
    requires WellFormed(s)
    ensures WellFormed(LogicalDelete(s, id).users)
  {
  }

  // ------------------------------------------------------------ sample data

  /** The sample store is well formed for distinct non-empty ids and lists its first two records. */
  lemma SeedState(id1: string, id2: string, id3: string)
    requires id1 != "" && id2 != "" && id3 != ""
    requires id1 != id2 && id1 != id3 && id2 != id3
    ensures WellFormed(Seed(id1, id2, id3))
    ensures ActiveUsers(Seed(id1, id2, id3)) == Seed(id1, id2, id3)[..2]
  {
    var s := Seed(id1, id2, id3);
    ActiveUsersAround(s, 2);
    assert s[..2] == [s[0], s[1]];
    assert ActiveUsers([s[2]]) == [];
    ActiveUsersAppend([s[0]], [s[1]]);
  }

  /**
   The lifecycle of the sample store: users A and B are listed, C is not;
   after creating D the listing is A, B, D; after deleting A it is B, D.
   */
  lemma Lifecycle(a: string, b: string, c: string, d: string)
    requires a != "" && b != "" && c != "" && d != ""
    requires a != b && a != c && a != d && b != c && b != d && c != d
    ensures var s0 := Seed(a, b, c);
      var r1 := Create(s0, d, Body(Some("D"), Some("d@x.com"), None, map[]));
      var r2 := LogicalDelete(r1.users, a);
      ActiveUsers(s0) == [s0[0], s0[1]] &&
      r1.outcome.Created? && r1.outcome.user.id == d &&
      ActiveUsers(r1.users) == [s0[0], s0[1], r1.outcome.user] &&
      r2.outcome.Ok? && !IsTrue(r2.outcome.user.isActive) &&
      ActiveUsers(r2.users) == [s0[1], r1.outcome.user]
  {
    var s0 := Seed(a, b, c);
    var body := Body(Some("D"), Some("d@x.com"), None, map[]);
    SeedState(a, b, c);
    assert s0[..2] == [s0[0], s0[1]];
    CreateAppends(s0, d, body);
    var r1 := Create(s0, d, body);
    var u := r1.outcome.user;
    assert r1.users == [s0[0], s0[1], s0[2], u];
    CreateKeepsWellFormed(s0, d, body);
    FindUnique(r1.users, a, 0);
    LogicalDeleteUnlists(r1.users, a, 0);
    var r2 := LogicalDelete(r1.users, a);
    var rest := r1.users[1..];
    assert rest == [s0[1]] + ([s0[2]] + [u]);
    ActiveUsersAppend([s0[1]], [s0[2]] + [u]);
    ActiveUsersAppend([s0[2]], [u]);
    assert ActiveUsers([s0[2]]) == [];
    assert ActiveUsers(rest) == [s0[1], u];
    assert ActiveUsers(r2.users) == [] + ActiveUsers(rest);
  }
}
