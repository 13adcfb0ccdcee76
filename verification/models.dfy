/** The ORM records of `models.py`, with the column defaults applied on insert and
    the table constraints (primary keys, the unique e-mail, the log's foreign key).
    Tables are sequences of rows in insertion order; the timestamp columns other than
    `logged_at` are not modelled. */
module Models {
  import opened Wrappers
  import opened Seqs

  /** A row of `users`. `protein_goal` is a nullable column: its default fills it on
      insert, but an update may store NULL in it. */
  datatype User = User(
    id: int,
    email: string,
    hashedPassword: string,
    fullName: Option<string>,
    location: Option<string>,
    proteinGoal: Option<int>,
    isActive: bool)

  const DefaultProteinGoal := 120

  /** A user row as the insert creates it when only the required columns and the
      name are given: the goal and the active flag take their column defaults. */
  function NewUser(id: int, email: string, hashedPassword: string, fullName: Option<string>): (u: User)
    ensures u.proteinGoal == Some(DefaultProteinGoal) && u.isActive
    ensures u.location == None
    ensures u.id == id && u.email == email && u.hashedPassword == hashedPassword && u.fullName == fullName
  {
    User(id, email, hashedPassword, fullName, None, Some(DefaultProteinGoal), true)
  }

  /** A row of `protein_logs`. `loggedAt` is the timestamp in seconds; the database's
      `func.date` of it is `DayOf(loggedAt)`. */
  datatype ProteinLog = ProteinLog(id: int, userId: int, foodName: string, proteinAmount: real, loggedAt: int)

  const SecondsPerDay := 86400

  /** The calendar day (days since the epoch) of a timestamp; `/` rounds towards
      negative infinity here, as a calendar does. */
  function DayOf(t: int): int {
    t / SecondsPerDay
  }

  /** A row of `foods`. */
  datatype Food = Food(
    id: int, name: string, proteinPer100g: real, category: Option<string>, isVegan: bool, imageUrl: Option<string>)

  /** A food inserted without `is_vegan` or an image: vegan by default. */
  function NewFood(id: int, name: string, proteinPer100g: real, category: Option<string>): (f: Food)
    ensures f.isVegan && f.imageUrl == None
    ensures f.id == id && f.name == name && f.proteinPer100g == proteinPer100g && f.category == category
  {
    Food(id, name, proteinPer100g, category, true, None)
  }

  /** A row of `stores`; both coordinates are nullable. */
  datatype Store = Store(id: int, name: string, address: Option<string>, latitude: Option<real>, longitude: Option<real>)

  /** A row of `food_prices`. */
  datatype FoodPrice = FoodPrice(id: int, foodId: int, storeId: int, price: real, unit: string)

  const DefaultPriceUnit := "per lb"

  /** A price inserted without a unit: priced per pound by default. */
  function NewFoodPrice(id: int, foodId: int, storeId: int, price: real): (p: FoodPrice)
    ensures p.unit == DefaultPriceUnit
    ensures p.id == id && p.foodId == foodId && p.storeId == storeId && p.price == price
  {
    FoodPrice(id, foodId, storeId, price, DefaultPriceUnit)
  }

  /** The primary-key constraint: no two rows share an id. */
  predicate UniqueIds<T>(rows: seq<T>, id: T -> int) {
    forall i, j | 0 <= i < j < |rows| :: id(rows[i]) != id(rows[j])
  }

  /** The id of the next inserted row: the larger of 1 and one more than the largest
      id in the table (1 for an empty table). It is larger than every id present. */
  function NextId<T>(rows: seq<T>, id: T -> int): (r: int)
    ensures r >= 1
    ensures forall x | x in rows :: id(x) < r
  {
    if |rows| == 0 then 1
    else
      var rest := NextId(rows[..|rows| - 1], id);
      assert forall x | x in rows :: x in rows[..|rows| - 1] || x == rows[|rows| - 1];
      var last := id(rows[|rows| - 1]);
      if last + 1 > rest then last + 1 else rest
  }

  /** Appending a row with a fresh id keeps ids unique. */
  lemma AppendFreshId<T>(rows: seq<T>, x: T, id: T -> int)
    requires UniqueIds(rows, id)
    requires forall y | y in rows :: id(y) != id(x)
    ensures UniqueIds(rows + [x], id)
  {
  }

  function UserId(u: User): int { u.id }
  function LogId(l: ProteinLog): int { l.id }
  function FoodId(f: Food): int { f.id }
  function StoreId(s: Store): int { s.id }

  /** `email` is unique: no two users share an address. */
  predicate EmailsUnique(users: seq<User>) {
    forall i, j | 0 <= i < j < |users| :: users[i].email != users[j].email
  }

  /** The foreign key of `protein_logs.user_id`: every log belongs to a user. */
  predicate LogsReferenceUsers(users: seq<User>, logs: seq<ProteinLog>) {
    forall l | l in logs :: exists u | u in users :: u.id == l.userId
  }

  /** The `users` table with its constraints. */
  predicate UsersTableValid(users: seq<User>) {
    UniqueIds(users, UserId) && EmailsUnique(users)
  }

  /** Inserting a user as a unique-email insert does: the row gets the next id and the column
      defaults; an e-mail already present violates the unique constraint. */
  function InsertUser(users: seq<User>, email: string, hashedPassword: string, fullName: Option<string>)
    : (r: Result<seq<User>, string>)
    requires UsersTableValid(users)
    ensures r.Err? <==> exists u | u in users :: u.email == email
    ensures r.Ok? ==> UsersTableValid(r.value)
    ensures r.Ok? ==> |r.value| == |users| + 1 && r.value[..|users|] == users
    ensures r.Ok? ==> r.value[|users|].email == email && r.value[|users|].proteinGoal == Some(DefaultProteinGoal)
  {
    if exists u | u in users :: u.email == email then Err("UNIQUE constraint failed: users.email")
    else
      var u := NewUser(NextId(users, UserId), email, hashedPassword, fullName);
      AppendFreshId(users, u, UserId);
      Ok(users + [u])
  }

  /** `query.filter(T.id == id).first()`: the first row with the id, if any. */
  function FindById<T>(rows: seq<T>, idOf: T -> int, id: int): (r: Option<T>)
    ensures r.None? <==> forall x | x in rows :: idOf(x) != id
    ensures r.Some? ==> r.value in rows && idOf(r.value) == id
  {
    var k := FindIndex(rows, (x: T) => idOf(x) == id);
    if k < 0 then
      assert forall x | x in rows :: idOf(x) != id by {
        forall x | x in rows ensures idOf(x) != id {
          var j :| 0 <= j < |rows| && rows[j] == x;
        }
      }
      None
    else Some(rows[k])
  }

  /** Under the primary-key constraint the lookup of a row's id finds that row. */
  lemma FindByIdFindsRow<T>(rows: seq<T>, idOf: T -> int, i: nat)
    requires i < |rows|
    requires UniqueIds(rows, idOf)
    ensures FindById(rows, idOf, idOf(rows[i])) == Some(rows[i])
  {
    var r := FindById(rows, idOf, idOf(rows[i]));
    var j :| 0 <= j < |rows| && rows[j] == r.value;
    assert i == j;
  }
}
