/** Three handlers as the source writes them, each next to the lemma that
    shows where it departs from what it evidently means to do. (Like the
    corrected routes, they do not model the 404 that rendering a page raises
    for a session naming a missing user.) The
    corrected handlers are `Routes.Delete`, `Routes.AddCafe` and
    `Routes.AdminOnly`.

    The departures come from attribute reads that fail at run time:
    - `User` declares no `is_admin` and the login mixin supplies none, so the
      delete handler raises before it reaches the owner test;
    - the anonymous user object has no `id`, so reading `current_user.id`
      without a login guard raises (in `add_cafe` and in `admin_only`);
    - `add_cafe` never sets `seats`, a NOT NULL column, so its insert is
      always refused by the store. */
module AsWritten {
  import opened Store
  import opened Routes

  /** The delete route as written: the authorization test reads a missing
      attribute, so every logged-in request for an existing cafe fails with
      a server error and nothing is deleted. */
  function DeleteAsWritten(st: State, cafeId: nat): (r: Response)
    ensures r.state == st
    ensures st.session.None? ==> r.outcome == Unauthorized
    ensures st.session.Some? && HasUser(st.db.users, st.session.value) && HasCafe(st.db.cafes, cafeId) ==>
      r.outcome == ServerError
  {
    if st.session.None? then Response(st, Unauthorized)
    else match SessionUser(st)
      case None => Response(st, NotFound)
      case Some(u) =>
        match CafeById(st.db.cafes, cafeId)
        case None => Response(st, NotFound)
        case Some(c) => Response(st, ServerError)
  }

  /** An owner asking to delete their own cafe: the route as written fails and
      keeps the cafe, while the corrected route removes it, whatever the admin
      test says. */
  lemma OwnerCannotDeleteAsWritten(st: State, c: Cafe, isAdmin: User -> bool)
    requires Routes.Valid(st)
    requires st.session == Some(c.userId)
    requires c in st.db.cafes
    ensures DeleteAsWritten(st, c.id).outcome == ServerError
    ensures c in DeleteAsWritten(st, c.id).state.db.cafes
    ensures c !in Delete(st, c.id, isAdmin).state.db.cafes
    ensures Delete(st, c.id, isAdmin).outcome == Redirect(ToHome, Some(CafeDeleted))
  {
    CafeByIdIsTheRow(st.db.cafes, c);
  }

  /** The add route as written: the form is validated first; then the
      submitter's id is read with no login guard, and the row is built without
      `seats` (nor `coffee_price`). */
  function AddCafeAsWritten(st: State, form: Option<CafeInput>): (r: Response)
    ensures r.state == st
    ensures form.None? ==> r.outcome == Render(AddView)
    ensures form.Some? && st.session.None? ==> r.outcome == ServerError
    ensures form.Some? && st.session.Some? && HasUser(st.db.users, st.session.value) ==>
      r.outcome == ConstraintError(NotNullViolation)
  {
    if form.None? then Response(st, Render(AddView))
    else if st.session.None? then Response(st, ServerError)
    else match SessionUser(st)
      case None => Response(st, NotFound)
      case Some(u) =>
        var f := form.value;
        var row := NewCafe(u.id, f.name, f.mapUrl, f.imgUrl, f.location,
                           f.hasToilet, f.hasWifi, f.hasSockets, f.canTakeCalls, None, None);
        match InsertCafe(st.db, row)
        case Err(e) => Response(st, ConstraintError(e))
        case Ok(ins) => Response(State(ins.db, st.session), Redirect(ToHome, None))
  }

  /** A logged-in user submitting a cafe with a fresh name: as written no cafe is
      ever added, while the corrected route adds exactly that one. */
  lemma AddCafeNeverAddsAsWritten(st: State, f: CafeInput)
    requires Routes.Valid(st)
    requires st.session.Some?
    requires !NameTaken(st.db.cafes, f.name)
    ensures AddCafeAsWritten(st, Some(f)).state.db.cafes == st.db.cafes
    ensures AddCafeAsWritten(st, Some(f)).outcome == ConstraintError(NotNullViolation)
    ensures |AddCafe(st, Some(f)).state.db.cafes| == |st.db.cafes| + 1
    ensures AddCafe(st, Some(f)).outcome == Redirect(ToHome, None)
  {
  }

  /** The admin guard as written: an anonymous visitor has no id to compare,
      so the guard fails with a server error instead of refusing. */
  function AdminOnlyAsWritten(st: State, handler: State -> Response): (r: Response)
    ensures st.session.None? ==> r == Response(st, ServerError)
    ensures st.session.Some? ==> r == AdminOnly(st, handler)
  {
    if st.session.None? then Response(st, ServerError)
    else match SessionUser(st)
      case None => Response(st, NotFound)
      case Some(u) => if u.id != 1 then Response(st, Forbidden) else handler(st)
  }

  /** An anonymous visitor at an admin-only route: a server error as written,
      Forbidden with nothing changed once corrected. */
  lemma AnonymousAtAdminRoute(st: State, handler: State -> Response)
    requires st.session.None?
    ensures AdminOnlyAsWritten(st, handler).outcome == ServerError
    ensures AdminOnly(st, handler) == Response(st, Forbidden)
  {
  }
}
