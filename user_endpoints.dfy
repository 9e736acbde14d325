/** The eight route handlers of the /api/User group, each one atomic step on
    an in-memory users table. The database is the map `table` from primary
    key to row; the clock and the key the database hands out on insert are
    parameters. */
module UserEndpoints {
  import opened UserRecord
  import opened UserTable
  import opened Pagination

  /** The result tag of a handler and its payload. `Created` carries the key
      that the location header names. */
  datatype Response<+T> =
    | Ok(body: T)
    | Created(location: int, body: T)
    | NoContent
    | NotFound
    | BadRequest

  /** Body of the list response: one page of rows and its metadata. */
  datatype PageResponse = PageResponse(data: seq<User>, pagination: PaginationInfo)

  class UserStore {
    var table: map<int, User>

    ghost predicate Valid()
      reads this
    {
      KeysMatch(table)
    }

    constructor ()
      ensures Valid() && table == map[]
    {
      table := map[];
    }

    /** GET /api/User?page=..&pageSize=.. */
    method List(requestedPage: int, requestedPageSize: int) returns (r: Response<PageResponse>)
      requires Valid()
      ensures r.Ok?
      ensures var info := r.body.pagination;
        && info.currentPage >= 1 && 1 <= info.pageSize <= MaxPageSize
        && (requestedPage >= 1 ==> info.currentPage == requestedPage)
        && (requestedPage < 1 ==> info.currentPage == DefaultPage)
        && (1 <= requestedPageSize <= MaxPageSize ==> info.pageSize == requestedPageSize)
        && (requestedPageSize < 1 ==> info.pageSize == DefaultPageSize)
        && (requestedPageSize > MaxPageSize ==> info.pageSize == MaxPageSize)
      ensures var info := r.body.pagination;
        && info.totalUsers == |table|
        && info.totalPages == TotalPages(info.totalUsers, info.pageSize)
        && (info.hasNext <==> info.currentPage < info.totalPages)
        && (info.hasPrevious <==> info.currentPage > 1)
      ensures var info := r.body.pagination;
        r.body.data == Window(Ordered(table), Offset(info.currentPage, info.pageSize), info.pageSize)
      ensures IdOrdered(r.body.data)
      ensures forall u :: u in r.body.data ==> u.id in table && table[u.id] == u
    {
      var page, pageSize := requestedPage, requestedPageSize;
      if page < 1 { page := DefaultPage; }
      if pageSize < 1 { pageSize := DefaultPageSize; }
      if pageSize > MaxPageSize { pageSize := MaxPageSize; }

      var totalUsers := |table|;
      var totalPages := TotalPages(totalUsers, pageSize);
      var skip := Offset(page, pageSize);
      var rows := Ordered(table);
      var users := Window(rows, skip, pageSize);
      WindowKeepsOrder(rows, skip, pageSize);
      var info := PaginationInfo(page, pageSize, totalUsers, totalPages, page < totalPages, page > 1);
      r := Ok(PageResponse(users, info));
    }

    /** GET /api/User/{id} */
    method Get(id: int) returns (r: Response<User>)
      requires Valid()
      ensures r.Ok? || r.NotFound?
      ensures r.NotFound? <==> id !in table
      ensures r.Ok? ==> r.body.id == id && r.body == table[id]
    {
      if id !in table {
        r := NotFound;
      } else {
        r := Ok(table[id]);
      }
    }

    /** POST /api/User: stores `model` under the key `newId` that the
        database hands out, stamped with the time `now`. */
    method Create(model: User, now: DateTime, newId: int) returns (r: Response<User>)
      requires Valid()
      requires newId !in table
      modifies this
      ensures Valid()
      ensures r.Created? && r.location == newId
      ensures r.body.id == newId && r.body.createdAt == Some(now)
      ensures SameEditableFields(r.body, model)
      ensures table == old(table)[newId := r.body]
      ensures |table| == |old(table)| + 1
    {
      var user := model.(createdAt := Some(now));
      user := user.(id := newId);
      table := table[newId := user];
      r := Created(newId, user);
    }

    /** PUT /api/User/{id}: overwrites every column of the stored row but
        the key and the creation time with those of `input`. */
    method Update(id: int, input: User) returns (r: Response<()>)
      requires Valid()
      modifies this
      ensures Valid()
      ensures id !in old(table) ==> r == NotFound && table == old(table)
      ensures id in old(table) ==>
        r == NoContent && table == old(table)[id := Overwritten(old(table)[id], input)]
      ensures table.Keys == old(table).Keys
    {
      if id !in table {
        r := NotFound;
        return;
      }
      var existing := table[id];
      existing := existing.(firstName := input.firstName);
      existing := existing.(lastName := input.lastName);
      existing := existing.(email := input.email);
      existing := existing.(age := input.age);
      existing := existing.(gender := input.gender);
      existing := existing.(state := input.state);
      existing := existing.(streetAddress := input.streetAddress);
      existing := existing.(postalCode := input.postalCode);
      existing := existing.(city := input.city);
      existing := existing.(country := input.country);
      existing := existing.(latitude := input.latitude);
      existing := existing.(longitude := input.longitude);
      existing := existing.(trafficSource := input.trafficSource);
      table := table[id := existing];
      r := NoContent;
    }

    /** DELETE /api/User/{id}: removes the row and returns its last values. */
    method Delete(id: int) returns (r: Response<User>)
      requires Valid()
      modifies this
      ensures Valid()
      ensures id !in old(table) ==> r == NotFound && table == old(table)
      ensures id in old(table) ==> r == Ok(old(table)[id]) && table == old(table) - {id}
      ensures id in old(table) ==> |table| == |old(table)| - 1
    {
      if id !in table {
        r := NotFound;
        return;
      }
      var user := table[id];
      table := table - {id};
      r := Ok(user);
    }

    /** GET /api/User/search?email=..: some row with that exact email. */
    method SearchByEmail(email: Option<string>) returns (r: Response<User>)
      requires Valid()
      ensures r.Ok? || r.NotFound? || r.BadRequest?
      ensures r.BadRequest? <==> email.None? || email.value == ""
      ensures r.Ok? ==> r.body.email == email && r.body.id in table && table[r.body.id] == r.body
      ensures r.NotFound? <==> !r.BadRequest? && forall id :: id in table ==> table[id].email != email
    {
      if email.None? || email.value == "" {
        r := BadRequest;
        return;
      }
      var rows := Ordered(table);
      assert forall id :: id in table ==> table[id] in rows;
      var user := FirstWithEmail(rows, email.value);
      if user.None? {
        r := NotFound;
      } else {
        r := Ok(user.value);
      }
    }

    /** GET /api/User/by-state/{state}: every row in that state, possibly
        none, each once. */
    method ByState(state: string) returns (r: Response<seq<User>>)
      requires Valid()
      ensures r.Ok?
      ensures forall u :: u in r.body <==> u.id in table && table[u.id] == u && u.state == Some(state)
      ensures forall i, j :: 0 <= i < j < |r.body| ==> r.body[i].id != r.body[j].id
    {
      var rows := Ordered(table);
      WithStateKeepsOrder(rows, state);
      r := Ok(WithState(rows, state));
    }

    /** GET /api/User/count */
    method Count() returns (r: Response<nat>)
      requires Valid()
      ensures r.Ok? && r.body == |table|
      ensures r.body == |Ordered(table)|
    {
      r := Ok(|table|);
    }
  }

  /** A row in state "CA" is listed by state and counted once it is created,
      and is gone from the state listing and from lookups once deleted. */
  method StateScenario(model: User, now: DateTime)
    requires model.state == Some("CA")
  {
    var store := new UserStore();
    var created := store.Create(model, now, 1);
    var inState := store.ByState("CA");
    assert created.body in inState.body;
    var count := store.Count();
    assert count == Ok(1);
    var deleted := store.Delete(1);
    assert deleted == Ok(created.body);
    var after := store.ByState("CA");
    assert created.body !in after.body;
    var gone := store.Get(1);
    assert gone == NotFound;
  }
}
