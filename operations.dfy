/**
 What each write handler of the user store does to the whole store, as pure
 functions from the store before the request to the outcome and the store
 after it. The handlers of the UserStore class are proved to follow them.
 */
module Operations {
  import opened Users

  /** The answer to one request together with the store it leaves behind. */
  datatype Step = Step(outcome: Outcome, users: seq<User>)

  /** Both `name` and `email` are present and neither is empty. */
  predicate ValidBody(b: Body) {
    b.name.Some? && b.email.Some? && b.name.value != "" && b.email.value != ""
  }

  /**
   POST: a body without a non-empty name and email is refused; otherwise the
   body becomes a record with the new id and `is_active` true, appended last.
   */
  function Create(s: seq<User>, freshId: string, b: Body): Step
    requires KeysApart(b)
  {
    if !ValidBody(b) then Step(BadRequest, s)
    else
      var u := User(freshId, b.name.value, b.email.value, JBool(true), b.extra);
      Step(Created(u), s + [u])
  }

  /**
   PUT: the body is checked before the id is looked up; on success name,
   email and `is_active` (true when absent) are overwritten and the id and
   extra keys are kept.
   */
  function Replace(s: seq<User>, id: string, b: Body): Step {
    if !ValidBody(b) then Step(BadRequest, s)
    else match Find(s, id)
      case None => Step(NotFound, s)
      case Some(i) =>
        var u := s[i].(name := b.name.value, email := b.email.value,
                       isActive := b.isActive.GetOr(JBool(true)));
        Step(Ok(u), s[i := u])
  }

  /**
   PATCH: the id is looked up first; then name, email and `is_active` are
   applied one at a time. An empty email is refused after a non-empty name
   has already been written, and that write stays.
   */
  function PartialUpdate(s: seq<User>, id: string, b: Body): Step {
    match Find(s, id)
    case None => Step(NotFound, s)
    case Some(i) =>
      if b.name == Some("") then Step(BadRequest, s)
      else
        var s1 := if b.name.Some? then s[i := s[i].(name := b.name.value)] else s;
        if b.email == Some("") then Step(BadRequest, s1)
        else
          var s2 := if b.email.Some? then s1[i := s1[i].(email := b.email.value)] else s1;
          var s3 := if b.isActive.Some? then s2[i := s2[i].(isActive := b.isActive.value)] else s2;
          Step(Ok(s3[i]), s3)
  }

  /** DELETE: the record found is kept and only marked inactive. */
  function LogicalDelete(s: seq<User>, id: string): Step {
    match Find(s, id)
    case None => Step(NotFound, s)
    case Some(i) =>
      var u := s[i].(isActive := JBool(false));
      Step(Ok(u), s[i := u])
  }
}
