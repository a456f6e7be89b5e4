/** The request handlers of the cafe directory as pure transitions: each route
    takes the application state (the store and the session) and its request
    input, and returns the next state with the response it produces. Form
    validation is folded into the input: `None` stands for a GET or a submission
    that failed validation, `Some(form)` for a validated submission.

    Three handlers here are the evidently intended versions of source code that
    cannot work as written (see the `AsWritten` module): `Delete` takes the
    admin test as a parameter, `AddCafe` stores `seats` and requires a login,
    and `AdminOnly` answers Forbidden to an anonymous visitor. */
module Routes {
  import opened Store
  import opened Passwords
  import opened Text

  /** The store plus the session cookie: no user, or one user id. */
  datatype State = State(db: Db, session: Option<nat>)

  /** Where a redirect sends the browser. */
  datatype Target = ToHome | ToLogin

  /** One-time notices flashed before a redirect. */
  datatype Notice = AlreadySignedUp | UnknownEmail | WrongPassword | CafeDeleted | NotAuthorized

  /** Rendered templates. */
  datatype View =
    | RegisterView
    | LoginView
    | IndexView(cafes: seq<Cafe>)
    | AddView
    | CafeView(cafe: Cafe)
    | SearchedView(found: seq<Cafe>)
    | SearchedError

  datatype Outcome =
    | Redirect(target: Target, notice: Option<Notice>)
    | Render(view: View)
    | Unauthorized              // 401 from the login guard
    | Forbidden                 // 403 from the admin guard
    | NotFound                  // 404 from a primary-key lookup
    | ConstraintError(error: StoreError)  // an uncaught store constraint violation
    | ServerError               // an uncaught exception in the handler itself

  datatype Response = Response(state: State, outcome: Outcome)

  datatype RegisterInput = RegisterInput(name: string, email: string, password: string)

  datatype LoginInput = LoginInput(email: string, password: string)

  datatype CafeInput = CafeInput(
    name: string,
    mapUrl: string,
    imgUrl: string,
    location: string,
    hasToilet: bool,
    hasWifi: bool,
    hasSockets: bool,
    canTakeCalls: bool,
    seats: string,
    coffeePrice: Option<string>)

  /** The store is valid and a session names a user that exists. */
  predicate Valid(st: State) {
    && Store.Valid(st.db)
    && (st.session.Some? ==> HasUser(st.db.users, st.session.value))
  }

  /** The user loader: the session's user, looked up by primary key. */
  function SessionUser(st: State): (r: Option<User>)
    requires st.session.Some?
    ensures r.Some? <==> HasUser(st.db.users, st.session.value)
    ensures r.Some? ==> r.value in st.db.users && r.value.id == st.session.value
  {
    UserById(st.db.users, st.session.value)
  }

  /** The delete authorization policy: an admin, or the cafe's owner. */
  predicate MayDelete(u: User, c: Cafe, isAdmin: User -> bool) {
    isAdmin(u) || c.userId == u.id
  }

  /** The convention of the admin guard: user number 1 is the administrator. */
  predicate IdOneIsAdmin(u: User) {
    u.id == 1
  }

  /** POST /register. A known email changes nothing and sends the visitor to the
      login page; a fresh email appends exactly one user holding the hash of
      the password, logs that user in and goes home. */
  function Register(st: State, form: Option<RegisterInput>): (r: Response)
    ensures form.None? ==> r == Response(st, Render(RegisterView))
    ensures form.Some? && EmailTaken(st.db.users, form.value.email) ==>
      r == Response(st, Redirect(ToLogin, Some(AlreadySignedUp)))
    ensures form.Some? && !EmailTaken(st.db.users, form.value.email) ==>
      && |r.state.db.users| == |st.db.users| + 1
      && r.state.db.users[..|st.db.users|] == st.db.users
      && r.state.db.cafes == st.db.cafes
      && var u := r.state.db.users[|st.db.users|];
      && u.name == form.value.name
      && u.email == form.value.email
      && u.password == Hash(form.value.password)
      && u.password != form.value.password
      && !HasUser(st.db.users, u.id)
      && r.state.session == Some(u.id)
      && r.outcome == Redirect(ToHome, None)
    ensures Valid(st) ==> Valid(r.state)
  {
    if form.None? then Response(st, Render(RegisterView))
    else if UserByEmail(st.db.users, form.value.email).Some? then
      Response(st, Redirect(ToLogin, Some(AlreadySignedUp)))
    else
      match InsertUser(st.db, form.value.name, form.value.email, Hash(form.value.password))
      case Ok(ins) =>
        assert ins.db.users[..|st.db.users|] == st.db.users;
        Response(State(ins.db, Some(ins.row.id)), Redirect(ToHome, None))
      case Err(e) => Response(st, ConstraintError(e))
  }

  /** POST /login. Exactly one of: unknown email, wrong password, success. The
      store never changes, and only success touches the session, which it
      binds to the user owning the email. */
  function Login(st: State, form: Option<LoginInput>): (r: Response)
    ensures r.state.db == st.db
    ensures form.None? ==> r == Response(st, Render(LoginView))
    ensures form.Some? && !EmailTaken(st.db.users, form.value.email) ==>
      r == Response(st, Redirect(ToLogin, Some(UnknownEmail)))
    ensures form.Some? && Valid(st) ==>
      forall u :: u in st.db.users && u.email == form.value.email ==>
        if CheckHash(u.password, form.value.password)
        then r == Response(State(st.db, Some(u.id)), Redirect(ToHome, None))
        else r == Response(st, Redirect(ToLogin, Some(WrongPassword)))
    ensures r.state.session != st.session ==> r.outcome == Redirect(ToHome, None)
    ensures Valid(st) ==> Valid(r.state)
  {
    if form.None? then Response(st, Render(LoginView))
    else match UserByEmail(st.db.users, form.value.email)
      case None => Response(st, Redirect(ToLogin, Some(UnknownEmail)))
      case Some(u) =>
        if !CheckHash(u.password, form.value.password) then
          Response(st, Redirect(ToLogin, Some(WrongPassword)))
        else
          Response(State(st.db, Some(u.id)), Redirect(ToHome, None))
  }

  /** GET /logout: the session ends; the store is untouched. Logging out first
      loads the session's user, so a session naming a missing user is a 404
      and stays in place. */
  function Logout(st: State): (r: Response)
    ensures r.state.db == st.db
    ensures st.session.Some? && !HasUser(st.db.users, st.session.value) ==> r == Response(st, NotFound)
    ensures st.session.None? || HasUser(st.db.users, st.session.value) ==>
      r.state.session.None? && r.outcome == Redirect(ToHome, None)
    ensures Valid(st) ==> Valid(r.state)
  {
    if st.session.Some? && SessionUser(st).None? then Response(st, NotFound)
    else Response(State(st.db, None), Redirect(ToHome, None))
  }

  /** GET /: every cafe is listed, to anyone; nothing changes. */
  function Home(st: State): (r: Response)
    ensures r.state == st
    ensures r.outcome.Render? && r.outcome.view.IndexView?
    ensures forall c :: c in r.outcome.view.cafes <==> c in st.db.cafes
  {
    Response(st, Render(IndexView(st.db.cafes)))
  }

  /** GET /cafe/<id>: the cafe with that id, or NotFound; nothing changes. */
  function ShowCafe(st: State, cafeId: nat): (r: Response)
    ensures r.state == st
    ensures HasCafe(st.db.cafes, cafeId) <==> r.outcome.Render?
    ensures !HasCafe(st.db.cafes, cafeId) ==> r.outcome == NotFound
    ensures r.outcome.Render? ==>
      r.outcome.view.CafeView? && r.outcome.view.cafe in st.db.cafes && r.outcome.view.cafe.id == cafeId
  {
    match CafeById(st.db.cafes, cafeId)
    case None => Response(st, NotFound)
    case Some(c) => Response(st, Render(CafeView(c)))
  }

  /** The new row `AddCafe` hands to the store for a submitter and a form. */
  function NewCafeFor(userId: nat, f: CafeInput): NewCafe {
    NewCafe(userId, f.name, f.mapUrl, f.imgUrl, f.location,
            f.hasToilet, f.hasWifi, f.hasSockets, f.canTakeCalls, Some(f.seats), f.coffeePrice)
  }

  /** POST /add, behind the login guard. A visitor without a session gets 401;
      a duplicate name is refused by the store with nothing changed; otherwise
      exactly one cafe is appended, owned by the logged-in user and carrying
      the submitted fields. Users and session never change. */
  function AddCafe(st: State, form: Option<CafeInput>): (r: Response)
    ensures r.state.session == st.session && r.state.db.users == st.db.users
    ensures st.session.None? ==> r == Response(st, Unauthorized)
    ensures st.session.Some? && !HasUser(st.db.users, st.session.value) ==> r == Response(st, NotFound)
    ensures st.session.Some? && HasUser(st.db.users, st.session.value) && form.None? ==>
      r == Response(st, Render(AddView))
    ensures st.session.Some? && HasUser(st.db.users, st.session.value) && form.Some?
            && NameTaken(st.db.cafes, form.value.name) ==>
      r == Response(st, ConstraintError(DuplicateKey))
    ensures r.state.db.cafes != st.db.cafes ==>
      && st.session.Some? && form.Some?
      && !NameTaken(st.db.cafes, form.value.name)
      && r.outcome == Redirect(ToHome, None)
      && |r.state.db.cafes| == |st.db.cafes| + 1
      && r.state.db.cafes[..|st.db.cafes|] == st.db.cafes
      && var c := r.state.db.cafes[|st.db.cafes|];
      && c.userId == st.session.value
      && RowOf(c, NewCafeFor(st.session.value, form.value))
    ensures st.session.Some? && HasUser(st.db.users, st.session.value) && form.Some?
            && !NameTaken(st.db.cafes, form.value.name) ==>
      r.state.db.cafes != st.db.cafes
    ensures Valid(st) ==> Valid(r.state)
  {
    if st.session.None? then Response(st, Unauthorized)
    else match SessionUser(st)
      case None => Response(st, NotFound)
      case Some(u) =>
        if form.None? then Response(st, Render(AddView))
        else match InsertCafe(st.db, NewCafeFor(u.id, form.value))
          case Err(e) => Response(st, ConstraintError(e))
          case Ok(ins) =>
            assert ins.db.cafes[..|st.db.cafes|] == st.db.cafes;
            Response(State(ins.db, st.session), Redirect(ToHome, None))
  }

  /** POST /delete/<id>, behind the login guard. No session gives 401; an unknown
      cafe gives NotFound; the cafe is removed exactly when the policy allows it,
      and otherwise nothing changes. No other row and no session ever changes. */
  function Delete(st: State, cafeId: nat, isAdmin: User -> bool): (r: Response)
    ensures r.state.session == st.session && r.state.db.users == st.db.users
    ensures forall c :: c in st.db.cafes && c.id != cafeId ==> c in r.state.db.cafes
    ensures forall c :: c in r.state.db.cafes ==> c in st.db.cafes
    ensures st.session.None? ==> r == Response(st, Unauthorized)
    ensures st.session.Some? && !HasUser(st.db.users, st.session.value) ==> r == Response(st, NotFound)
    ensures st.session.Some? && !HasCafe(st.db.cafes, cafeId) ==> r.state == st && r.outcome == NotFound
    ensures r.state.db != st.db <==>
      && st.session.Some?
      && HasUser(st.db.users, st.session.value)
      && HasCafe(st.db.cafes, cafeId)
      && MayDelete(SessionUser(st).value, CafeById(st.db.cafes, cafeId).value, isAdmin)
    ensures r.state.db != st.db ==>
      !HasCafe(r.state.db.cafes, cafeId) && r.outcome == Redirect(ToHome, Some(CafeDeleted))
    ensures r.state.db == st.db && st.session.Some? && HasUser(st.db.users, st.session.value)
            && HasCafe(st.db.cafes, cafeId) ==>
      r.outcome == Redirect(ToHome, Some(NotAuthorized))
    ensures Valid(st) ==> Valid(r.state)
  {
    if st.session.None? then Response(st, Unauthorized)
    else match SessionUser(st)
      case None => Response(st, NotFound)
      case Some(u) =>
        match CafeById(st.db.cafes, cafeId)
        case None => Response(st, NotFound)
        case Some(c) =>
          if MayDelete(u, c, isAdmin) then
            var db' := DeleteCafe(st.db, cafeId);
            assert c !in db'.cafes;
            Response(State(db', st.session), Redirect(ToHome, Some(CafeDeleted)))
          else
            Response(st, Redirect(ToHome, Some(NotAuthorized)))
  }

  /** The query text the handler interpolates: a missing form field is
      Python's `None`, which formats as the word "None". */
  function QueryText(query: Option<string>): string {
    match query
    case None => "None"
    case Some(q) => q
  }

  /** Some cafe's column matches the query. */
  predicate AnyMatch(cafes: seq<Cafe>, col: Column, q: string) {
    exists c :: c in cafes && Matches(c, col, q)
  }

  /** POST /search. A name match wins: when any cafe name contains the query,
      exactly the name matches are shown, in store order. Only when no name
      matches are locations consulted, and then exactly the location matches
      are shown. With neither, the error view. The state never changes. */
  function Search(st: State, query: Option<string>): (r: Response)
    requires NoWildcards(QueryText(query))
    ensures r.state == st
    ensures r.outcome.Render? && (r.outcome.view.SearchedView? || r.outcome.view.SearchedError?)
    ensures r.outcome.view.SearchedView? ==> r.outcome.view.found != []
    ensures AnyMatch(st.db.cafes, NameColumn, QueryText(query)) ==> r.outcome.view.SearchedView?
    ensures r.outcome.view.SearchedView? && AnyMatch(st.db.cafes, NameColumn, QueryText(query)) ==>
      r.outcome.view.found == Select(st.db.cafes, NameColumn, QueryText(query))
    ensures r.outcome.view.SearchedView? && !AnyMatch(st.db.cafes, NameColumn, QueryText(query)) ==>
      r.outcome.view.found == Select(st.db.cafes, LocationColumn, QueryText(query))
    ensures r.outcome.view.SearchedError? <==>
      !AnyMatch(st.db.cafes, NameColumn, QueryText(query)) && !AnyMatch(st.db.cafes, LocationColumn, QueryText(query))
  {
    var q := QueryText(query);
    var byName := Select(st.db.cafes, NameColumn, q);
    if |byName| > 0 then
      assert byName[0] in byName;
      Response(st, Render(SearchedView(byName)))
    else
      var byLocation := Select(st.db.cafes, LocationColumn, q);
      if |byLocation| > 0 then
        assert byLocation[0] in byLocation;
        Response(st, Render(SearchedView(byLocation)))
      else
        Response(st, Render(SearchedError))
  }

  /** The `admin_only` decorator around a handler. The handler runs exactly when
      the logged-in user has id 1; any other visitor gets Forbidden with nothing
      changed (or NotFound when the session names a user that is gone). */
  function AdminOnly(st: State, handler: State -> Response): (r: Response)
    ensures st.session.Some? && HasUser(st.db.users, st.session.value) && st.session.value == 1 ==>
      r == handler(st)
    ensures st.session.None? ==> r == Response(st, Forbidden)
    ensures st.session.Some? && HasUser(st.db.users, st.session.value) && st.session.value != 1 ==>
      r == Response(st, Forbidden)
    ensures st.session.Some? && !HasUser(st.db.users, st.session.value) ==> r == Response(st, NotFound)
  {
    if st.session.None? then Response(st, Forbidden)
    else match SessionUser(st)
      case None => Response(st, NotFound)
      case Some(u) => if u.id != 1 then Response(st, Forbidden) else handler(st)
  }
}
