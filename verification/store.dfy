/** The record store behind the routes: the `users` and `cafe` tables, their key
    constraints, the queries the routes issue and the two mutating operations
    (insert and delete). Tables are sequences in store iteration order. */
module Store {
  import opened Text

  datatype Option<T> = None | Some(value: T)

  /** A row of `users`. `password` holds the stored hash, never the plaintext. */
  datatype User = User(id: nat, name: string, email: string, password: string)

  /** A row of `cafe`; `userId` is the owner's `users.id`. */
  datatype Cafe = Cafe(
    id: nat,
    userId: nat,
    name: string,
    mapUrl: string,
    imgUrl: string,
    location: string,
    hasToilet: bool,
    hasWifi: bool,
    hasSockets: bool,
    canTakeCalls: bool,
    seats: string,
    coffeePrice: Option<string>)

  /** A cafe as handed to the store for insertion: no id yet, and `seats` may be
      missing although its column is NOT NULL. */
  datatype NewCafe = NewCafe(
    userId: nat,
    name: string,
    mapUrl: string,
    imgUrl: string,
    location: string,
    hasToilet: bool,
    hasWifi: bool,
    hasSockets: bool,
    canTakeCalls: bool,
    seats: Option<string>,
    coffeePrice: Option<string>)

  datatype Db = Db(users: seq<User>, cafes: seq<Cafe>)

  /** The constraint violations the store reports on insert. */
  datatype StoreError = DuplicateKey | NotNullViolation

  datatype Result<T> = Ok(value: T) | Err(error: StoreError)

  /** A successful insert: the new table contents and the row as stored. */
  datatype Inserted<T> = Inserted(db: Db, row: T)

  predicate Distinct<T(==)>(s: seq<T>) {
    forall i, j :: 0 <= i < j < |s| ==> s[i] != s[j]
  }

  /** No row twice; `id` is the primary key and `email` is UNIQUE. */
  predicate UsersWellKeyed(users: seq<User>) {
    && Distinct(users)
    && (forall a, b :: a in users && b in users && a.id == b.id ==> a == b)
    && (forall a, b :: a in users && b in users && a.email == b.email ==> a == b)
  }

  /** No row twice; `id` is the primary key and `name` is UNIQUE. */
  predicate CafesWellKeyed(cafes: seq<Cafe>) {
    && Distinct(cafes)
    && (forall a, b :: a in cafes && b in cafes && a.id == b.id ==> a == b)
    && (forall a, b :: a in cafes && b in cafes && a.name == b.name ==> a == b)
  }

  predicate HasUser(users: seq<User>, id: nat) {
    exists u :: u in users && u.id == id
  }

  predicate EmailTaken(users: seq<User>, email: string) {
    exists u :: u in users && u.email == email
  }

  predicate NameTaken(cafes: seq<Cafe>, name: string) {
    exists c :: c in cafes && c.name == name
  }

  predicate HasCafe(cafes: seq<Cafe>, id: nat) {
    exists c :: c in cafes && c.id == id
  }

  /** The store's invariant: both tables keyed, and every cafe's owner exists. */
  predicate Valid(db: Db) {
    && UsersWellKeyed(db.users)
    && CafesWellKeyed(db.cafes)
    && (forall c :: c in db.cafes ==> HasUser(db.users, c.userId))
  }

  function Max(a: nat, b: nat): nat {
    if a < b then b else a
  }

  /** The id SQLite gives a new row of an INTEGER PRIMARY KEY table without
      AUTOINCREMENT: one more than the largest id present, or 1 when empty. */
  function NextId(ids: seq<nat>): (r: nat)
    ensures r >= 1
    ensures forall i :: 0 <= i < |ids| ==> ids[i] < r
    ensures r == 1 || r - 1 in ids
  {
    if |ids| == 0 then 1
    else
      var rest := NextId(ids[..|ids| - 1]);
      assert forall i :: 0 <= i < |ids| - 1 ==> ids[..|ids| - 1][i] == ids[i];
      Max(ids[|ids| - 1] + 1, rest)
  }

  /** The id column of a table, in row order. */
  function Ids<T>(rows: seq<T>, id: T -> nat): (ids: seq<nat>)
    ensures |ids| == |rows|
    ensures forall i :: 0 <= i < |rows| ==> ids[i] == id(rows[i])
  {
    seq(|rows|, i requires 0 <= i < |rows| => id(rows[i]))
  }

  /** The id a new user gets is above every id in the table, and is the
      smallest such id. */
  function NextUserId(users: seq<User>): (r: nat)
    ensures r >= 1
    ensures forall u :: u in users ==> u.id < r
    ensures r == 1 || HasUser(users, r - 1)
  {
    var ids := Ids(users, (u: User) => u.id);
    var r := NextId(ids);
    assert r != 1 ==> users[IndexOf(ids, r - 1)].id == r - 1;
    r
  }

  /** The id a new cafe gets; as for users. */
  function NextCafeId(cafes: seq<Cafe>): (r: nat)
    ensures r >= 1
    ensures forall c :: c in cafes ==> c.id < r
    ensures r == 1 || HasCafe(cafes, r - 1)
  {
    var ids := Ids(cafes, (c: Cafe) => c.id);
    var r := NextId(ids);
    assert r != 1 ==> cafes[IndexOf(ids, r - 1)].id == r - 1;
    r
  }

  function IndexOf(ids: seq<nat>, x: nat): (k: nat)
    requires x in ids
    ensures k < |ids| && ids[k] == x
  {
    if ids[0] == x then 0 else 1 + IndexOf(ids[1..], x)
  }

  /** `select ... from users where email = ?` followed by `.scalar()`: the first
      matching row, if any. */
  function UserByEmail(users: seq<User>, email: string): (r: Option<User>)
    ensures r.Some? <==> EmailTaken(users, email)
    ensures r.Some? ==> r.value in users && r.value.email == email
  {
    if |users| == 0 then None
    else if users[0].email == email then Some(users[0])
    else UserByEmail(users[1..], email)
  }

  /** Primary-key lookup in `users` (the session's user loader). */
  function UserById(users: seq<User>, id: nat): (r: Option<User>)
    ensures r.Some? <==> HasUser(users, id)
    ensures r.Some? ==> r.value in users && r.value.id == id
  {
    if |users| == 0 then None
    else if users[0].id == id then Some(users[0])
    else UserById(users[1..], id)
  }

  /** Primary-key lookup in `cafe`. */
  function CafeById(cafes: seq<Cafe>, id: nat): (r: Option<Cafe>)
    ensures r.Some? <==> HasCafe(cafes, id)
    ensures r.Some? ==> r.value in cafes && r.value.id == id
  {
    if |cafes| == 0 then None
    else if cafes[0].id == id then Some(cafes[0])
    else CafeById(cafes[1..], id)
  }

  /** Under the primary-key constraint a lookup finds the one row with that id. */
  lemma CafeByIdIsTheRow(cafes: seq<Cafe>, c: Cafe)
    requires CafesWellKeyed(cafes)
    requires c in cafes
    ensures CafeById(cafes, c.id) == Some(c)
  {
  }

  /** Under the UNIQUE constraint on email, a lookup finds the one row with it. */
  lemma UserByEmailIsTheRow(users: seq<User>, u: User)
    requires UsersWellKeyed(users)
    requires u in users
    ensures UserByEmail(users, u.email) == Some(u)
  {
  }

  /** The searchable text columns of `cafe`. */
  datatype Column = NameColumn | LocationColumn

  function ColumnOf(c: Cafe, col: Column): string {
    match col
    case NameColumn => c.name
    case LocationColumn => c.location
  }

  predicate Matches(c: Cafe, col: Column, q: string) {
    ILike(ColumnOf(c, col), q)
  }

  /** `Cafe.query.filter(column.ilike('%q%')).all()`: the matching rows, in
      store order. */
  function Select(cafes: seq<Cafe>, col: Column, q: string): (r: seq<Cafe>)
    ensures forall c :: c in r <==> c in cafes && Matches(c, col, q)
    ensures |r| <= |cafes|
    ensures Distinct(cafes) ==> Distinct(r)
  {
    if |cafes| == 0 then []
    else
      var rest := Select(cafes[1..], col, q);
      assert cafes[0] in cafes;
      if Matches(cafes[0], col, q) then [cafes[0]] + rest else rest
  }

  /** Filtering keeps store order: filtering two runs of rows one after the
      other is filtering each and joining the results. */
  lemma {:induction false} SelectAppend(a: seq<Cafe>, b: seq<Cafe>, col: Column, q: string)
    ensures Select(a + b, col, q) == Select(a, col, q) + Select(b, col, q)
  {
    if |a| > 0 {
      assert (a + b)[1..] == a[1..] + b;
      SelectAppend(a[1..], b, col, q);
    } else {
      assert a + b == b;
    }
  }

  /** A filter that every row passes returns the whole table, in order. */
  lemma {:induction false} SelectAll(cafes: seq<Cafe>, col: Column, q: string)
    requires forall c :: c in cafes ==> Matches(c, col, q)
    ensures Select(cafes, col, q) == cafes
  {
    if |cafes| > 0 {
      assert cafes[0] in cafes;
      assert forall c :: c in cafes[1..] ==> c in cafes;
      SelectAll(cafes[1..], col, q);
    }
  }

  /** INSERT into `users`. The UNIQUE constraint on email rejects a duplicate;
      otherwise exactly one row is appended, with a fresh id. */
  function InsertUser(db: Db, name: string, email: string, password: string): (r: Result<Inserted<User>>)
    ensures r.Err? <==> EmailTaken(db.users, email)
    ensures r.Err? ==> r.error == DuplicateKey
    ensures r.Ok? ==> r.value.db == Db(db.users + [r.value.row], db.cafes)
    ensures r.Ok? ==> r.value.row.name == name && r.value.row.email == email && r.value.row.password == password
    ensures r.Ok? ==> r.value.row.id >= 1 && !HasUser(db.users, r.value.row.id)
    ensures r.Ok? && Valid(db) ==> Valid(r.value.db)
  {
    if UserByEmail(db.users, email).Some? then Err(DuplicateKey)
    else
      var u := User(NextUserId(db.users), name, email, password);
      var users' := db.users + [u];
      assert forall x :: x in users' ==> x in db.users || x == u;
      Ok(Inserted(Db(users', db.cafes), u))
  }

  /** INSERT into `cafe`. A missing NOT NULL column is reported first, then a
      duplicate name; otherwise exactly one row is appended, with a fresh id
      and every field taken from the request. */
  function InsertCafe(db: Db, c: NewCafe): (r: Result<Inserted<Cafe>>)
    ensures r.Err? <==> c.seats.None? || NameTaken(db.cafes, c.name)
    ensures c.seats.None? ==> r == Err(NotNullViolation)
    ensures c.seats.Some? && NameTaken(db.cafes, c.name) ==> r == Err(DuplicateKey)
    ensures r.Ok? ==> r.value.db == Db(db.users, db.cafes + [r.value.row])
    ensures r.Ok? ==> RowOf(r.value.row, c) && r.value.row.id >= 1 && !HasCafe(db.cafes, r.value.row.id)
    ensures r.Ok? && Valid(db) && HasUser(db.users, c.userId) ==> Valid(r.value.db)
  {
    if c.seats.None? then Err(NotNullViolation)
    else if NameTaken(db.cafes, c.name) then Err(DuplicateKey)
    else
      var row := Cafe(NextCafeId(db.cafes), c.userId, c.name, c.mapUrl, c.imgUrl, c.location,
                      c.hasToilet, c.hasWifi, c.hasSockets, c.canTakeCalls, c.seats.value, c.coffeePrice);
      var cafes' := db.cafes + [row];
      assert forall x :: x in cafes' ==> x in db.cafes || x == row;
      Ok(Inserted(Db(db.users, cafes'), row))
  }

  /** `row` is what the store holds for the request `c`, apart from its id. */
  predicate RowOf(row: Cafe, c: NewCafe) {
    && c.seats == Some(row.seats)
    && row.userId == c.userId && row.name == c.name && row.mapUrl == c.mapUrl
    && row.imgUrl == c.imgUrl && row.location == c.location
    && row.hasToilet == c.hasToilet && row.hasWifi == c.hasWifi
    && row.hasSockets == c.hasSockets && row.canTakeCalls == c.canTakeCalls
    && row.coffeePrice == c.coffeePrice
  }

  /** Every row of `cafes` except those with primary key `id`, in order. */
  function Without(cafes: seq<Cafe>, id: nat): (r: seq<Cafe>)
    ensures forall c :: c in r <==> c in cafes && c.id != id
    ensures |r| <= |cafes|
    ensures Distinct(cafes) ==> Distinct(r)
  {
    if |cafes| == 0 then []
    else
      var rest := Without(cafes[1..], id);
      assert cafes[0] in cafes;
      if cafes[0].id == id then rest else [cafes[0]] + rest
  }

  /** DELETE of the cafe with primary key `id`: that row goes, every other row
      of both tables stays, and the store stays valid. */
  function DeleteCafe(db: Db, id: nat): (r: Db)
    ensures r.users == db.users
    ensures forall c :: c in r.cafes <==> c in db.cafes && c.id != id
    ensures !HasCafe(r.cafes, id)
    ensures Valid(db) ==> Valid(r)
  {
    Db(db.users, Without(db.cafes, id))
  }

  /** With the primary key in force, deleting a present id removes exactly one
      row; deleting an absent id removes none. */
  lemma {:induction false} WithoutCount(cafes: seq<Cafe>, id: nat)
    requires CafesWellKeyed(cafes)
    ensures HasCafe(cafes, id) ==> |Without(cafes, id)| == |cafes| - 1
    ensures !HasCafe(cafes, id) ==> Without(cafes, id) == cafes
  {
    if |cafes| > 0 {
      var rest := cafes[1..];
      assert forall x :: x in rest ==> x in cafes;
      assert cafes[0] in cafes;
      assert forall j :: 0 <= j < |rest| ==> rest[j] == cafes[j + 1];
      assert CafesWellKeyed(rest);
      WithoutCount(rest, id);
      if cafes[0].id == id {
        assert cafes[0] !in rest;
        assert !HasCafe(rest, id);
      } else {
        assert HasCafe(cafes, id) ==> HasCafe(rest, id);
        assert cafes == [cafes[0]] + rest;
      }
    }
  }
}
