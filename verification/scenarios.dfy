/** Properties that span several requests, stated over the route transitions. */
module Scenarios {
  import opened Store
  import opened Passwords
  import opened Text
  import opened Routes

  /** Registering a second time with an email that the first registration
      stored changes nothing and sends the visitor to log in. */
  lemma SecondRegistrationRejected(st: State, first: RegisterInput, second: RegisterInput)
    requires second.email == first.email
    ensures var st1 := Register(st, Some(first)).state;
      Register(st1, Some(second)) == Response(st1, Redirect(ToLogin, Some(AlreadySignedUp)))
  {
    var st1 := Register(st, Some(first)).state;
    if !EmailTaken(st.db.users, first.email) {
      var u := st1.db.users[|st.db.users|];
      assert u in st1.db.users && u.email == second.email;
    } else {
      assert st1 == st;
    }
  }

  /** Register, log out, log in again: the login succeeds exactly with the
      password that was registered, and then binds the session to the user
      that registration created. */
  lemma RegisterThenLogin(st: State, f: RegisterInput, password: string)
    requires Routes.Valid(st)
    requires !EmailTaken(st.db.users, f.email)
    ensures var st1 := Register(st, Some(f)).state;
      var st2 := Logout(st1).state;
      var r := Login(st2, Some(LoginInput(f.email, password)));
      && (r.outcome == Redirect(ToHome, None) <==> password == f.password)
      && (password == f.password ==> r.state.session == st1.session)
      && (password != f.password ==> r.state == st2)
  {
    var st1 := Register(st, Some(f)).state;
    var st2 := Logout(st1).state;
    var u := st1.db.users[|st.db.users|];
    assert u in st2.db.users && u.email == f.email;
    assert Routes.Valid(st2);
    CheckHashAcceptsOnlyOriginal(f.password, password);
  }

  /** A logged-in user who neither owns a cafe nor is an admin cannot remove
      it: the cafe is still listed afterwards. */
  lemma NonOwnerDeleteKeepsCafe(st: State, c: Cafe, isAdmin: User -> bool)
    requires Routes.Valid(st)
    requires st.session.Some? && c in st.db.cafes
    requires c.userId != st.session.value
    requires !isAdmin(SessionUser(st).value)
    ensures var st1 := Delete(st, c.id, isAdmin).state;
      st1 == st && c in Home(st1).outcome.view.cafes
  {
    CafeByIdIsTheRow(st.db.cafes, c);
  }

  const BlueBottle := Cafe(1, 1, "Blue Bottle", "https://maps/1", "https://img/1", "Soho",
                           true, true, false, false, "20-30", None)
  const SohoDiner := Cafe(2, 1, "Soho Diner", "https://maps/2", "https://img/2", "Downtown",
                          false, true, true, true, "10", Some("3.50"))

  /** "Soho" occurs, ignoring case, in the name "Soho Diner". */
  lemma SohoMatchesSohoDiner()
    ensures Matches(SohoDiner, NameColumn, "Soho")
  {
    var q := ToLower("Soho");
    assert q[0] == 's' && q[1] == 'o' && q[2] == 'h' && q[3] == 'o';
    assert q == "soho";
    var l := ToLower("Soho Diner");
    assert l[0] == 's' && l[1] == 'o' && l[2] == 'h' && l[3] == 'o';
    assert l[..4] == "soho";
  }

  /** "Soho" occurs, ignoring case, in the location "Soho" of Blue Bottle. */
  lemma SohoLocatesBlueBottle()
    ensures Matches(BlueBottle, LocationColumn, "Soho")
  {
    var q := ToLower("Soho");
    assert q[0] == 's' && q[1] == 'o' && q[2] == 'h' && q[3] == 'o';
    assert q == "soho";
    assert q[..4] == "soho";
  }

  /** A text whose lower-case form lacks the letter s cannot match "Soho". */
  lemma NoSoho(name: string)
    requires forall i :: 0 <= i < |name| ==> name[i] != 's' && name[i] != 'S'
    ensures !ILike(name, "Soho")
  {
    var q := ToLower("Soho");
    assert q[0] == 's' && q[1] == 'o' && q[2] == 'h' && q[3] == 'o';
    assert q == "soho";
    var l := ToLower(name);
    assert forall i :: 0 <= i < |l| ==> l[i] != 's';
    assert forall i :: !OccursAt(l, "soho", i);
    ContainsIsSubstring(l, "soho");
  }

  /** "Soho" does not occur, ignoring case, in the name "Blue Bottle": that
      name has no letter s at all. */
  lemma SohoMissesBlueBottle()
    ensures !Matches(BlueBottle, NameColumn, "Soho")
  {
    var name := "Blue Bottle";
    assert forall i :: 0 <= i < |name| ==> name[i] != 's' && name[i] != 'S';
    NoSoho(name);
  }

  /** Two cafes, one matching the query by location only and one matching it
      by name: the search shows only the name match. */
  lemma NameMatchSuppressesLocation(st: State, q: string, byLocation: Cafe, byName: Cafe)
    requires NoWildcards(q)
    requires st.db.cafes == [byLocation, byName]
    requires Matches(byLocation, LocationColumn, q) && !Matches(byLocation, NameColumn, q)
    requires Matches(byName, NameColumn, q)
    ensures Search(st, Some(q)).outcome == Render(SearchedView([byName]))
  {
    var cafes := st.db.cafes;
    assert cafes[1..] == [byName];
    assert cafes[1..][1..] == [];
    assert Select(cafes[1..][1..], NameColumn, q) == [];
    assert Select(cafes[1..], NameColumn, q) == [byName];
    assert Select(cafes, NameColumn, q) == [byName];
  }

  /** The directory holds Blue Bottle, located in Soho, and Soho Diner: the
      query "Soho" matches a name, so only Soho Diner is shown and Blue Bottle,
      a location match, is not. */
  lemma SohoExample(st: State)
    requires st.db.cafes == [BlueBottle, SohoDiner]
    ensures Search(st, Some("Soho")).outcome == Render(SearchedView([SohoDiner]))
  {
    var q := "Soho";
    assert NoWildcards(q) by {
      assert forall i :: 0 <= i < |q| ==> q[i] in {'S', 'o', 'h'};
    }
    SohoLocatesBlueBottle();
    SohoMissesBlueBottle();
    SohoMatchesSohoDiner();
    NameMatchSuppressesLocation(st, q, BlueBottle, SohoDiner);
  }

  /** An empty query is the pattern '%%', which every name matches: the
      search lists the whole directory in store order. */
  lemma EmptySearchListsAll(st: State)
    requires |st.db.cafes| > 0
    ensures Search(st, Some("")).outcome == Render(SearchedView(st.db.cafes))
  {
    forall c | c in st.db.cafes
      ensures Matches(c, NameColumn, "")
    {
      ContainsEmpty(ToLower(c.name));
    }
    SelectAll(st.db.cafes, NameColumn, "");
    assert st.db.cafes[0] in st.db.cafes;
  }

  /** A fresh installation: no users, no cafes, nobody logged in. */
  predicate Empty(st: State) {
    st.db.users == [] && st.db.cafes == [] && st.session.None?
  }

  /** The first user to register into an empty store gets id 1, the id the
      admin guard singles out, and is logged in. */
  lemma FirstUserIsAdmin(st0: State, admin: RegisterInput)
    requires Empty(st0)
    ensures var st := Register(st0, Some(admin)).state;
      && st.db == Db([User(1, admin.name, admin.email, Hash(admin.password))], [])
      && st.session == Some(1)
      && Routes.Valid(st)
  {
    var st := Register(st0, Some(admin)).state;
    var a := st.db.users[0];
    assert st.db.users == [a];
  }

  /** The steps of `AdminRemovesSubmittedCafe`, one named state per request. */
  lemma AdminRemovesSubmittedCafeSteps(st0: State, admin: RegisterInput, owner: RegisterInput, cafe: CafeInput,
                                       st1: State, st2: State, st3: State, st4: State, st5: State, st6: State)
    requires Empty(st0)
    requires admin.email != owner.email
    requires st1 == Register(st0, Some(admin)).state
    requires st2 == Logout(st1).state
    requires st3 == Register(st2, Some(owner)).state
    requires st4 == AddCafe(st3, Some(cafe)).state
    requires st5 == Logout(st4).state
    requires st6 == Login(st5, Some(LoginInput(admin.email, admin.password))).state
    ensures st6.session == Some(1)
    ensures |st4.db.cafes| == 1 && st4.db.cafes[0].name == cafe.name && st4.db.cafes[0].userId != 1
    ensures Delete(st6, st4.db.cafes[0].id, IdOneIsAdmin).outcome == Redirect(ToHome, Some(CafeDeleted))
    ensures st4.db.cafes[0] !in Home(Delete(st6, st4.db.cafes[0].id, IdOneIsAdmin).state).outcome.view.cafes
  {
    FirstUserIsAdmin(st0, admin);
    var a := st1.db.users[0];
    assert !EmailTaken(st2.db.users, owner.email);
    var o := st3.db.users[1];
    assert st3.db.users == [a, o] && o.id != 1;
    assert Routes.Valid(st3);
    assert st4.db.cafes != st3.db.cafes;
    var added := st4.db.cafes[0];
    assert Routes.Valid(st5);
    assert a in st5.db.users && CheckHash(a.password, admin.password);
    assert st6.session == Some(1);
    assert added in st6.db.cafes;
    CafeByIdIsTheRow(st6.db.cafes, added);
    assert SessionUser(st6) == Some(a);
  }

  /** The whole life of a cafe: the administrator (the first user to register)
      and a second user sign up; the second user submits a cafe and logs out;
      the administrator logs in and deletes it; the listing no longer shows it. */
  lemma AdminRemovesSubmittedCafe(st0: State, admin: RegisterInput, owner: RegisterInput, cafe: CafeInput)
    requires Empty(st0)
    requires admin.email != owner.email
    ensures
      var st1 := Register(st0, Some(admin)).state;
      var st3 := Register(Logout(st1).state, Some(owner)).state;
      var st4 := AddCafe(st3, Some(cafe)).state;
      var st6 := Login(Logout(st4).state, Some(LoginInput(admin.email, admin.password))).state;
      && st6.session == Some(1)
      && |st4.db.cafes| == 1
      && var added := st4.db.cafes[0];
      && added.userId != 1
      && var r := Delete(st6, added.id, IdOneIsAdmin);
      && r.outcome == Redirect(ToHome, Some(CafeDeleted))
      && added !in Home(r.state).outcome.view.cafes
  {
    var st1 := Register(st0, Some(admin)).state;
    var st2 := Logout(st1).state;
    var st3 := Register(st2, Some(owner)).state;
    var st4 := AddCafe(st3, Some(cafe)).state;
    var st5 := Logout(st4).state;
    var st6 := Login(st5, Some(LoginInput(admin.email, admin.password))).state;
    AdminRemovesSubmittedCafeSteps(st0, admin, owner, cafe, st1, st2, st3, st4, st5, st6);
  }
}
