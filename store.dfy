/**
 * The bot's SQLite store (class `SQL` in base.py), reduced to the two tables
 * the bot uses: `users(id, status, is_admin)` and
 * `city_krasnoyarsk(id_dot, name_dot, type_dot)`.
 *
 * The user table is keyed by id. The place table is a sequence of rows in
 * table order: its schema is not part of this model, so nothing makes
 * `id_dot` a key, and every statement `... WHERE id_dot = ?` acts on all the
 * rows that match, as SQL does. That ids stay distinct is proved instead
 * (`TableInvariant` and the lemmas that keep it).
 *
 * Read-only queries are functions of the table values; the statements that
 * write are methods of class `Sql`.
 *
 * Python's `sqlite3` binds an `int` parameter as a 64-bit INTEGER and raises
 * `OverflowError` for one outside that range, before the statement runs.
 */
module Store {
  import opened Wrappers
  import PyInt

  datatype User = User(status: int, isAdmin: bool)

  /** The `type_dot` column holds an integer or, when the text did not parse, the text itself. */
  datatype TypeValue = Int(n: int) | Text(s: string)

  datatype Place = Place(idDot: int, nameDot: string, typeDot: TypeValue)

  const MIN_INTEGER := -0x8000_0000_0000_0000
  const MAX_INTEGER := 0x7FFF_FFFF_FFFF_FFFF

  /** An integer `sqlite3` can bind: it fits a 64-bit INTEGER. */
  predicate FitsInteger(n: int) {
    MIN_INTEGER <= n <= MAX_INTEGER
  }

  // ---------------------------------------------------------------- users

  /** `user_exist(id)`. */
  predicate UserExist(users: map<int, User>, id: int) {
    id in users
  }

  /** `get_field("users", id, "status")`: the stored status, or `None` without a row. */
  function GetStatus(users: map<int, User>, id: int): (r: Option<int>)
    ensures r.Some? <==> UserExist(users, id)
    ensures r.Some? ==> r.value == users[id].status
  {
    if id in users then Some(users[id].status) else None
  }

  /** `get_field("users", id, "is_admin")`: the stored flag, or `None` without a row. */
  function GetIsAdmin(users: map<int, User>, id: int): (r: Option<bool>)
    ensures r.Some? <==> UserExist(users, id)
    ensures r.Some? ==> r.value == users[id].isAdmin
  {
    if id in users then Some(users[id].isAdmin) else None
  }

  /** The table after `update_field("users", id, "status", status)`. */
  function WithStatus(users: map<int, User>, id: int, status: int): (r: map<int, User>)
    ensures r.Keys == users.Keys
    ensures UserExist(users, id) ==> GetStatus(r, id) == Some(status)
    ensures UserExist(users, id) ==> GetIsAdmin(r, id) == GetIsAdmin(users, id)
    ensures forall k :: k in users && k != id ==> r[k] == users[k]
  {
    if id in users then users[id := users[id].(status := status)] else users
  }

  // --------------------------------------------------------------- places

  /** The type value stored for the text `typeDot` (base.py, `add_dot_krasnoyarsk`). */
  function TypeValueOf(typeDot: string): (r: TypeValue)
    ensures r.Int? <==> PyInt.ParseInt(typeDot).Some?
    ensures r.Int? ==> PyInt.ParseInt(typeDot) == Some(r.n)
    ensures r.Text? ==> r.s == typeDot
  {
    match PyInt.ParseInt(typeDot)
    case Some(n) => Int(n)
    case None => Text(typeDot)
  }

  /** A type value `sqlite3` can bind: any text, and an integer that fits. */
  predicate Bindable(v: TypeValue) {
    v.Int? ==> FitsInteger(v.n)
  }

  /** `SELECT MAX(id_dot)` on a non-empty table. */
  function MaxIdDot(places: seq<Place>): int
    requires places != []
  {
    if |places| == 1 then places[0].idDot
    else
      var rest := MaxIdDot(places[1..]);
      if places[0].idDot < rest then rest else places[0].idDot
  }

  /** `get_next_available_id`: one more than the largest id, or 1 on an empty table. */
  function NextAvailableId(places: seq<Place>): int {
    if places == [] then 1 else MaxIdDot(places) + 1
  }

  /** The maximum is at least every id and is the id of some row. */
  lemma {:induction false} MaxIdDotIsMax(places: seq<Place>)
    requires places != []
    ensures forall i :: 0 <= i < |places| ==> places[i].idDot <= MaxIdDot(places)
    ensures exists i :: 0 <= i < |places| && places[i].idDot == MaxIdDot(places)
  {
    if |places| == 1 {
      assert places[0].idDot == MaxIdDot(places);
    } else {
      MaxIdDotIsMax(places[1..]);
      assert forall i :: 1 <= i < |places| ==> places[i] == places[1..][i - 1];
      var j :| 0 <= j < |places[1..]| && places[1..][j].idDot == MaxIdDot(places[1..]);
      assert places[j + 1].idDot == MaxIdDot(places[1..]);
    }
  }

  /** The next id is 1 on an empty table, otherwise some row's id plus one, and above every id. */
  lemma NextAvailableIdAboveAll(places: seq<Place>)
    ensures forall i :: 0 <= i < |places| ==> places[i].idDot < NextAvailableId(places)
    ensures places == [] ==> NextAvailableId(places) == 1
    ensures places != [] ==> exists i :: 0 <= i < |places| && NextAvailableId(places) == places[i].idDot + 1
  {
    if places != [] {
      MaxIdDotIsMax(places);
    }
  }

  /** The rows of `places` that `keep` selects (the model keeps table order; SQL does not promise one). */
  function Filter(places: seq<Place>, keep: Place -> bool): (r: seq<Place>)
    ensures forall p :: multiset(r)[p] == if keep(p) then multiset(places)[p] else 0
    ensures forall i :: 0 <= i < |r| ==> keep(r[i])
  {
    if places == [] then []
    else
      assert places == [places[0]] + places[1..];
      (if keep(places[0]) then [places[0]] else []) + Filter(places[1..], keep)
  }

  /** `get_dots(table)` lists every row; `get_dots(table, n)` the rows whose id is `n`. */
  function GetDots(places: seq<Place>, idDot: Option<int>): (r: seq<Place>)
    ensures idDot.None? ==> r == places
    ensures idDot.Some? ==> forall p :: multiset(r)[p] == if p.idDot == idDot.value then multiset(places)[p] else 0
  {
    match idDot
    case None => places
    case Some(n) => Filter(places, (p: Place) => p.idDot == n)
  }

  /** `get_id_dot_krasnoyarsk(name)`: the id of a row with that name, or `None` when no row has it. */
  function IdDotOfName(places: seq<Place>, nameDot: string): (r: Option<int>)
    ensures r.None? <==> forall i :: 0 <= i < |places| ==> places[i].nameDot != nameDot
    ensures r.Some? ==> exists i :: 0 <= i < |places| && places[i].nameDot == nameDot && places[i].idDot == r.value
  {
    if places == [] then None
    else if places[0].nameDot == nameDot then Some(places[0].idDot)
    else
      var r := IdDotOfName(places[1..], nameDot);
      assert forall i :: 1 <= i < |places| ==> places[i] == places[1..][i - 1];
      r
  }

  /** The table after `UPDATE city_krasnoyarsk SET name_dot = ? WHERE id_dot = ?`. */
  function Renamed(places: seq<Place>, idDot: int, nameDot: string): seq<Place> {
    if places == [] then []
    else
      var p := places[0];
      [if p.idDot == idDot then p.(nameDot := nameDot) else p] + Renamed(places[1..], idDot, nameDot)
  }

  /** Renaming changes only the names of the rows with that id; ids, types and order stay. */
  lemma {:induction false} RenamedRows(places: seq<Place>, idDot: int, nameDot: string)
    ensures |Renamed(places, idDot, nameDot)| == |places|
    ensures forall i :: 0 <= i < |places| ==>
      Renamed(places, idDot, nameDot)[i] == if places[i].idDot == idDot then places[i].(nameDot := nameDot) else places[i]
  {
    if places != [] {
      RenamedRows(places[1..], idDot, nameDot);
    }
  }

  /** The table after `UPDATE city_krasnoyarsk SET type_dot = ? WHERE id_dot = ?`. */
  function Retyped(places: seq<Place>, idDot: int, typeDot: TypeValue): seq<Place> {
    if places == [] then []
    else
      var p := places[0];
      [if p.idDot == idDot then p.(typeDot := typeDot) else p] + Retyped(places[1..], idDot, typeDot)
  }

  /** Retyping changes only the types of the rows with that id; ids, names and order stay. */
  lemma {:induction false} RetypedRows(places: seq<Place>, idDot: int, typeDot: TypeValue)
    ensures |Retyped(places, idDot, typeDot)| == |places|
    ensures forall i :: 0 <= i < |places| ==>
      Retyped(places, idDot, typeDot)[i] == if places[i].idDot == idDot then places[i].(typeDot := typeDot) else places[i]
  {
    if places != [] {
      RetypedRows(places[1..], idDot, typeDot);
    }
  }

  /** The table after `DELETE FROM city_krasnoyarsk WHERE id_dot = ?`. */
  function Deleted(places: seq<Place>, idDot: int): (r: seq<Place>)
    ensures forall p :: multiset(r)[p] == if p.idDot == idDot then 0 else multiset(places)[p]
  {
    Filter(places, (p: Place) => p.idDot != idDot)
  }

  /** The INSERT of `add_dot_krasnoyarsk` can bind its values: the next id and the parsed type fit. */
  predicate InsertBinds(places: seq<Place>, typeDot: string) {
    FitsInteger(NextAvailableId(places)) && Bindable(TypeValueOf(typeDot))
  }

  ghost predicate DistinctIds(places: seq<Place>) {
    forall i, j :: 0 <= i < j < |places| ==> places[i].idDot != places[j].idDot
  }

  /** What holds of a place table the bot writes: distinct ids, and every stored integer in range. */
  ghost predicate TableInvariant(places: seq<Place>) {
    DistinctIds(places) && InRange(places)
  }

  ghost predicate InRange(places: seq<Place>) {
    forall i :: 0 <= i < |places| ==> FitsInteger(places[i].idDot) && Bindable(places[i].typeDot)
  }

  // -------------------------------------------------------------- lemmas

  /** A number written as text is stored as that number. */
  lemma TypeValueOfNumber(n: int)
    ensures TypeValueOf(PyInt.ShowInt(n)) == Int(n)
  {
    PyInt.ParseIntShowInt(n);
  }

  /** Text with no digit in it is stored unchanged, as text. */
  lemma TypeValueOfWords(typeDot: string)
    requires forall i :: 0 <= i < |typeDot| ==> !PyInt.IsDigit(typeDot[i])
    ensures TypeValueOf(typeDot) == Text(typeDot)
  {
    PyInt.ParseIntNeedsDigit(typeDot);
  }

  /** Appending a row with the next id, when its values bind, keeps the table invariant. */
  lemma AddKeepsInvariant(places: seq<Place>, nameDot: string, typeDot: string)
    requires TableInvariant(places) && InsertBinds(places, typeDot)
    ensures TableInvariant(places + [Place(NextAvailableId(places), nameDot, TypeValueOf(typeDot))])
  {
    NextAvailableIdAboveAll(places);
  }

  /** Renaming keeps the table invariant: ids and types are untouched. */
  lemma RenameKeepsInvariant(places: seq<Place>, idDot: int, nameDot: string)
    requires TableInvariant(places)
    ensures TableInvariant(Renamed(places, idDot, nameDot))
  {
    RenamedRows(places, idDot, nameDot);
  }

  /** Retyping with a value that binds keeps the table invariant. */
  lemma RetypeKeepsInvariant(places: seq<Place>, idDot: int, typeDot: TypeValue)
    requires TableInvariant(places) && Bindable(typeDot)
    ensures TableInvariant(Retyped(places, idDot, typeDot))
  {
    RetypedRows(places, idDot, typeDot);
  }

  /** Every row a selection returns is a row of the table. */
  lemma FilterRowsAreRows(places: seq<Place>, keep: Place -> bool)
    ensures forall p :: p in Filter(places, keep) ==> p in places
  {
    forall p | p in Filter(places, keep) ensures p in places {
      assert multiset(Filter(places, keep))[p] > 0;
    }
  }

  /** Selecting rows keeps the table invariant. */
  lemma FilterKeepsInvariant(places: seq<Place>, keep: Place -> bool)
    requires TableInvariant(places)
    ensures TableInvariant(Filter(places, keep))
  {
    FilterKeepsDistinct(places, keep);
    var r := Filter(places, keep);
    FilterRowsAreRows(places, keep);
    forall i | 0 <= i < |r| ensures FitsInteger(r[i].idDot) && Bindable(r[i].typeDot) {
      assert r[i] in places;
    }
  }

  lemma {:induction false} FilterKeepsDistinct(places: seq<Place>, keep: Place -> bool)
    requires DistinctIds(places)
    ensures DistinctIds(Filter(places, keep))
  {
    if places != [] {
      var h, tail := places[0], places[1..];
      assert DistinctIds(tail) by {
        assert forall i :: 0 <= i < |tail| ==> tail[i] == places[i + 1];
      }
      FilterKeepsDistinct(tail, keep);
      var rest := Filter(tail, keep);
      FilterRowsAreRows(tail, keep);
      var r := Filter(places, keep);
      if keep(h) {
        assert r == [h] + rest;
        forall j | 0 < j < |r| ensures r[j].idDot != h.idDot {
          assert r[j] == rest[j - 1] && rest[j - 1] in tail;
          var k :| 0 <= k < |tail| && tail[k] == r[j];
          assert places[k + 1] == r[j];
        }
      } else {
        assert r == rest;
      }
    }
  }

  /** Deleting keeps the table invariant. */
  lemma DeleteKeepsInvariant(places: seq<Place>, idDot: int)
    requires TableInvariant(places)
    ensures TableInvariant(Deleted(places, idDot))
  {
    FilterKeepsInvariant(places, (p: Place) => p.idDot != idDot);
  }

  /** The row `add_dot_krasnoyarsk` appends is the only one with its id. */
  lemma {:induction false} NewRowIsOnlyOneWithId(places: seq<Place>, row: Place)
    requires row.idDot == NextAvailableId(places)
    ensures GetDots(places + [row], Some(row.idDot)) == [row]
  {
    NextAvailableIdAboveAll(places);
    var all := places + [row];
    var r := GetDots(all, Some(row.idDot));
    assert multiset(all)[row] == multiset(places)[row] + 1;
    assert row !in places;
    assert multiset(r) == multiset{row} by {
      forall p ensures multiset(r)[p] == multiset{row}[p] {
        if p != row && p.idDot == row.idDot {
          assert p !in places;
          assert p !in all;
        }
      }
    }
    assert |r| == 1 by {
      assert |multiset(r)| == 1;
    }
    assert r[0] in multiset(r);
  }

  /** After renaming, every row with that id carries the new name and no other row changed. */
  lemma RenamedTargetsOnlyId(places: seq<Place>, idDot: int, nameDot: string)
    ensures forall p :: p in GetDots(Renamed(places, idDot, nameDot), Some(idDot)) ==> p.nameDot == nameDot
    ensures |Renamed(places, idDot, nameDot)| == |places|
    ensures forall i :: 0 <= i < |places| && places[i].idDot != idDot ==> Renamed(places, idDot, nameDot)[i] == places[i]
  {
    RenamedRows(places, idDot, nameDot);
    var r := Renamed(places, idDot, nameDot);
    forall p | p in GetDots(r, Some(idDot)) ensures p.nameDot == nameDot {
      assert multiset(GetDots(r, Some(idDot)))[p] > 0;
      assert p in multiset(r);
      var i :| 0 <= i < |r| && r[i] == p;
    }
  }

  /** After deleting, no row with that id is left and every other row is kept. */
  lemma DeletedRemovesExactly(places: seq<Place>, idDot: int)
    ensures GetDots(Deleted(places, idDot), Some(idDot)) == []
    ensures forall p :: p in places && p.idDot != idDot ==> p in Deleted(places, idDot)
  {
    var r := GetDots(Deleted(places, idDot), Some(idDot));
    assert multiset(r) == multiset{};
    forall p | p in places && p.idDot != idDot ensures p in Deleted(places, idDot) {
      assert multiset(places)[p] > 0;
    }
  }

  // ---------------------------------------------------------------- class

  /** The open database: the two tables and the row `add_user` inserts. */
  class Sql {
    var users: map<int, User>
    var cityKrasnoyarsk: seq<Place>
    /** The status and admin flag the schema gives a new user row (the schema is not part of this model). */
    const initial: User

    /** Connecting to a database file that already holds these tables. */
    constructor (initial: User, users: map<int, User>, cityKrasnoyarsk: seq<Place>)
      ensures this.initial == initial && this.users == users && this.cityKrasnoyarsk == cityKrasnoyarsk
    {
      this.initial := initial;
      this.users := users;
      this.cityKrasnoyarsk := cityKrasnoyarsk;
    }

    /** `add_user(id)`: inserts a row with the default fields; a duplicate id is refused and changes nothing. */
    method AddUser(id: int) returns (inserted: bool)
      modifies this
      ensures inserted <==> !UserExist(old(users), id)
      ensures UserExist(users, id)
      ensures users == if inserted then old(users)[id := initial] else old(users)
      ensures cityKrasnoyarsk == old(cityKrasnoyarsk)
    {
      inserted := id !in users;
      if inserted {
        users := users[id := initial];
      }
    }

    /** `update_field("users", id, "status", value)`. */
    method UpdateStatus(id: int, value: int)
      modifies this
      ensures users == WithStatus(old(users), id, value)
      ensures cityKrasnoyarsk == old(cityKrasnoyarsk)
    {
      if id in users {
        users := users[id := users[id].(status := value)];
      }
    }

    /**
     * `add_dot_krasnoyarsk(name, type)`: appends one row with the next id and returns that id.
     * The INSERT raises (`None` here) and writes nothing when the next id or the parsed type
     * is outside the INTEGER range, or when the database refuses it for a reason of its own
     * schema (`accepted` false).
     */
    method AddDot(nameDot: string, typeDot: string, accepted: bool) returns (r: Option<int>)
      modifies this
      ensures r.Some? <==> accepted && InsertBinds(old(cityKrasnoyarsk), typeDot)
      ensures r.Some? ==> r.value == NextAvailableId(old(cityKrasnoyarsk))
      ensures r.Some? ==> cityKrasnoyarsk == old(cityKrasnoyarsk) + [Place(r.value, nameDot, TypeValueOf(typeDot))]
      ensures r.None? ==> cityKrasnoyarsk == old(cityKrasnoyarsk)
      ensures users == old(users)
    {
      var nextId := NextAvailableId(cityKrasnoyarsk);
      var typeValue := TypeValueOf(typeDot);
      if !FitsInteger(nextId) || !Bindable(typeValue) || !accepted {
        return None;
      }
      cityKrasnoyarsk := cityKrasnoyarsk + [Place(nextId, nameDot, typeValue)];
      r := Some(nextId);
    }

    /** `UPDATE city_krasnoyarsk SET name_dot = ? WHERE id_dot = ?` (main.py); `done` is false when binding the id raises. */
    method SetNameDot(idDot: int, nameDot: string) returns (done: bool)
      modifies this
      ensures done <==> FitsInteger(idDot)
      ensures cityKrasnoyarsk == if done then Renamed(old(cityKrasnoyarsk), idDot, nameDot) else old(cityKrasnoyarsk)
      ensures users == old(users)
    {
      done := FitsInteger(idDot);
      if done {
        cityKrasnoyarsk := Renamed(cityKrasnoyarsk, idDot, nameDot);
      }
    }

    /** `UPDATE city_krasnoyarsk SET type_dot = ? WHERE id_dot = ?` with the raw text (main.py); `done` is false when binding the id raises. */
    method SetTypeDot(idDot: int, typeDot: string) returns (done: bool)
      modifies this
      ensures done <==> FitsInteger(idDot)
      ensures cityKrasnoyarsk == if done then Retyped(old(cityKrasnoyarsk), idDot, Text(typeDot)) else old(cityKrasnoyarsk)
      ensures users == old(users)
    {
      done := FitsInteger(idDot);
      if done {
        cityKrasnoyarsk := Retyped(cityKrasnoyarsk, idDot, Text(typeDot));
      }
    }

    /** `DELETE FROM city_krasnoyarsk WHERE id_dot = ?` (main.py); `done` is false when binding the id raises. */
    method DeleteDots(idDot: int) returns (done: bool)
      modifies this
      ensures done <==> FitsInteger(idDot)
      ensures cityKrasnoyarsk == if done then Deleted(old(cityKrasnoyarsk), idDot) else old(cityKrasnoyarsk)
      ensures users == old(users)
    {
      done := FitsInteger(idDot);
      if done {
        cityKrasnoyarsk := Deleted(cityKrasnoyarsk, idDot);
      }
    }
  }
}
