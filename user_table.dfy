/** The users table held in memory as a map from primary key to row, its
    view in ascending id order (what `OrderBy(u => u.id)` reads) and the two
    column filters the endpoints run over it. */
module UserTable {
  import opened UserRecord
  import opened Pagination

  /** Each row is stored under its own key. */
  ghost predicate KeysMatch(table: map<int, User>)
  {
    forall id :: id in table ==> table[id].id == id
  }

  /** Rows listed by strictly ascending id, so no row appears twice. */
  ghost predicate IdOrdered(rows: seq<User>)
  {
    forall i, j :: 0 <= i < j < |rows| ==> rows[i].id < rows[j].id
  }

  /** A non-empty set has an element. */
  lemma HasElement(keys: set<int>)
    requires keys != {}
    ensures exists x :: x in keys
  {
    if forall x :: x !in keys { assert false; }
  }

  /** A non-empty finite set of keys has a least element. */
  lemma {:induction false} LeastExists(keys: set<int>)
    requires keys != {}
    ensures exists k :: k in keys && forall j :: j in keys ==> k <= j
    decreases keys
  {
    HasElement(keys);
    var x :| x in keys;
    var rest := keys - {x};
    var k := x;
    if rest != {} {
      LeastExists(rest);
      var m :| m in rest && forall j :: j in rest ==> m <= j;
      if m < x {
        k := m;
      }
    }
    forall j | j in keys ensures k <= j {
      if j != x {
        assert j in rest;
      }
    }
  }

  /** The least key of a non-empty set. */
  function Least(keys: set<int>): (k: int)
    requires keys != {}
    ensures k in keys && forall j :: j in keys ==> k <= j
  {
    LeastExists(keys);
    var k :| k in keys && forall j :: j in keys ==> k <= j;
    k
  }

  /** The keys in ascending order, each once. */
  function SortedKeys(keys: set<int>): (r: seq<int>)
    ensures |r| == |keys|
    ensures forall k :: k in r <==> k in keys
    ensures forall i, j :: 0 <= i < j < |r| ==> r[i] < r[j]
    decreases |keys|
  {
    if keys == {} then []
    else
      var k := Least(keys);
      var rest := SortedKeys(keys - {k});
      assert forall i :: 0 <= i < |rest| ==> k < rest[i] by {
        forall i | 0 <= i < |rest| ensures k < rest[i] {
          assert rest[i] in rest;
        }
      }
      [k] + rest
  }

  /** The rows stored under the given keys, in the keys' order. */
  function RowsAt(table: map<int, User>, keys: seq<int>): (r: seq<User>)
    requires forall i :: 0 <= i < |keys| ==> keys[i] in table
    ensures |r| == |keys|
    ensures forall i :: 0 <= i < |keys| ==> r[i] == table[keys[i]]
  {
    if keys == [] then [] else [table[keys[0]]] + RowsAt(table, keys[1..])
  }

  /** Rows fetched under strictly ascending keys come out id-ordered, and
      are exactly the stored rows whose key is listed. */
  lemma RowsAtOrdered(table: map<int, User>, keys: seq<int>)
    requires KeysMatch(table)
    requires forall i :: 0 <= i < |keys| ==> keys[i] in table
    requires forall i, j :: 0 <= i < j < |keys| ==> keys[i] < keys[j]
    ensures IdOrdered(RowsAt(table, keys))
    ensures forall u :: u in RowsAt(table, keys) <==> u.id in keys && u.id in table && table[u.id] == u
  {
  }

  /** The whole table in ascending id order: every stored row exactly once. */
  function Ordered(table: map<int, User>): (rows: seq<User>)
    requires KeysMatch(table)
    ensures |rows| == |table|
    ensures IdOrdered(rows)
    ensures forall u :: u in rows <==> u.id in table && table[u.id] == u
  {
    var keys := SortedKeys(table.Keys);
    assert |table.Keys| == |table|;
    RowsAtOrdered(table, keys);
    RowsAt(table, keys)
  }

  /** A window of an id-ordered sequence is id-ordered and holds only rows
      of that sequence. */
  lemma WindowKeepsOrder(rows: seq<User>, skip: nat, take: nat)
    requires IdOrdered(rows)
    ensures IdOrdered(Window(rows, skip, take))
    ensures forall u :: u in Window(rows, skip, take) ==> u in rows
  {
  }

  /** An id-ordered sequence stays id-ordered when a row with a smaller id
      is put in front. */
  lemma ConsKeepsOrder(x: User, rest: seq<User>)
    requires IdOrdered(rest)
    requires forall v :: v in rest ==> x.id < v.id
    ensures IdOrdered([x] + rest)
  {
  }

  /** The tail of an id-ordered sequence is id-ordered and above its head. */
  lemma TailKeepsOrder(rows: seq<User>)
    requires IdOrdered(rows) && |rows| > 0
    ensures IdOrdered(rows[1..])
    ensures forall v :: v in rows[1..] ==> rows[0].id < v.id
  {
  }

  /** The rows whose `state` column equals `state`, in the input's order;
      a null column never matches. */
  function WithState(rows: seq<User>, state: string): (r: seq<User>)
    ensures forall u :: u in r <==> u in rows && u.state == Some(state)
  {
    if |rows| == 0 then []
    else
      assert rows == [rows[0]] + rows[1..];
      var rest := WithState(rows[1..], state);
      if rows[0].state == Some(state) then [rows[0]] + rest else rest
  }

  /** Filtering an id-ordered sequence keeps it id-ordered, so no matching
      row is reported twice. */
  lemma {:induction false} WithStateKeepsOrder(rows: seq<User>, state: string)
    requires IdOrdered(rows)
    ensures IdOrdered(WithState(rows, state))
  {
    if |rows| > 0 {
      TailKeepsOrder(rows);
      WithStateKeepsOrder(rows[1..], state);
      if rows[0].state == Some(state) {
        ConsKeepsOrder(rows[0], WithState(rows[1..], state));
      }
    }
  }

  /** The first row, in the input's order, whose `email` column equals
      `email`; a null column never matches. */
  function FirstWithEmail(rows: seq<User>, email: string): (r: Option<User>)
    ensures r.Some? ==> r.value in rows && r.value.email == Some(email)
    ensures r.None? <==> forall u :: u in rows ==> u.email != Some(email)
  {
    if |rows| == 0 then None
    else if rows[0].email == Some(email) then Some(rows[0])
    else
      assert rows == [rows[0]] + rows[1..];
      FirstWithEmail(rows[1..], email)
  }
}
