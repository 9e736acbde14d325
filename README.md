# eCommerceUsers user endpoints in Dafny

A model of the user CRUD service: the `User` row (fifteen columns, all but
the key nullable) and the eight handlers of the `/api/User` route group —
paginated listing, get by id, create, update, delete, search by email,
filter by state and count. The database is an in-memory table: a
`map<int, User>` from primary key to row, held in the class
`UserEndpoints.UserStore` and updated in place by the handlers that write.
Each handler is one atomic step on that map and returns a result tag
(`Ok`, `Created`, `NoContent`, `NotFound`, `BadRequest`) with its payload.

Files:

- `user_record.dfy` — module `UserRecord`: the `User` datatype and the
  whole-record overwrite applied by an update.
- `pagination.dfy` — module `Pagination`: the number of pages (ceiling
  division), the page offset, the Skip/Take window, and lemmas that relate
  `hasNext` to the next page and show that the pages together are the whole
  table.
- `user_table.dfy` — module `UserTable`: the table in ascending id order
  (what `OrderBy(u => u.id)` reads) and the state and email filters.
- `user_endpoints.dfy` — module `UserEndpoints`: the class `UserStore`
  with one method per handler, and `StateScenario`, a client that creates,
  filters, counts and deletes a row in state "CA" using only the handlers'
  contracts.

Inputs that come from outside the service are parameters: the creation
time `now` and the key `newId` that the database assigns on insert (any key
not yet in the table).

## Model

| member | source | states |
|---|---|---|
| `Pagination.TotalPages` | Models/Users.cs:45 | the page count is the least n with n * pageSize >= totalUsers (the ceiling of the division), and it is 0 exactly when the table is empty |
| `Pagination.Offset` | Models/Users.cs:46 | the skip offset of page p is a natural number, below p * pageSize, and the next page starts pageSize rows later |
| `Pagination.Window` | Models/Users.cs:49-53 | Skip(skip).Take(take) returns min(take, max(0, total - skip)) rows, the i-th being row skip + i of the ordered table; so never more than pageSize rows |
| `Pagination.PageNonEmptyIff` | Models/Users.cs:45-46 | page p (p >= 1) starts inside the table exactly when p <= totalPages |
| `Pagination.HasNextIffNextPageNonEmpty` | Models/Users.cs:64 | `hasNext` (page < totalPages) holds exactly when some row lies beyond the current page, i.e. when the next page's window is not empty |
| `Pagination.PagesFromIsSuffix` | Models/Users.cs:46-53 | the pages from page p onward, concatenated, are exactly the ordered rows from p's offset on |
| `Pagination.PagesReassemble` | Models/Users.cs:46-53 | pages 1, 2, ... concatenated give back the whole ordered table: no row is lost or shown twice |
| `UserRecord.Overwritten` | Models/Users.cs:113-125 | the updated row keeps the stored `id` and `created_at` and takes all thirteen other columns from the request body, nulls included |
| `UserTable.SortedKeys` | Models/Users.cs:50 | the keys listed in strictly ascending order, each key of the set exactly once |
| `UserTable.Ordered` | Models/Users.cs:49-50 | the table ordered by id: strictly ascending ids, one entry per stored row, and exactly the stored rows |
| `UserTable.WindowKeepsOrder` | Models/Users.cs:49-53 | a page of the ordered table is in ascending id order and holds only stored rows |
| `UserTable.WithState` | Models/Users.cs:178-180 | a row is in the result exactly when it is in the input and its `state` equals the requested state (a null state never matches) |
| `UserTable.WithStateKeepsOrder` | Models/Users.cs:178-180 | filtering the ordered table keeps ascending ids, so no matching row is reported twice |
| `UserTable.FirstWithEmail` | Models/Users.cs:162-163 | a returned row is in the input and has exactly the requested email; nothing is returned exactly when no row has that email |
| `UserEndpoints.UserStore.List` | Models/Users.cs:34-68 | always Ok; page < 1 becomes 1, pageSize < 1 becomes 10, pageSize > 100 becomes 100, in-range values are kept, so page >= 1 and 1 <= pageSize <= 100; totalUsers is the row count and totalPages its ceiling page count; hasNext iff page < totalPages, hasPrevious iff page > 1; the data is the window of the id-ordered table at the page's offset, in ascending id order, of stored rows only |
| `UserEndpoints.UserStore.Get` | Models/Users.cs:74-83 | NotFound exactly when the id is absent; otherwise Ok with the row stored under that id |
| `UserEndpoints.UserStore.Create` | Models/Users.cs:89-97 | Created with the new key as location; the stored row has the new key, `created_at` = now whatever the client sent, and the client's other columns; the table gains exactly that row, so the count grows by one |
| `UserEndpoints.UserStore.Update` | Models/Users.cs:103-129 | absent id: NotFound and the table unchanged; present id: NoContent and the table differs only at that key, whose row becomes the overwritten row (key and creation time kept) |
| `UserEndpoints.UserStore.Delete` | Models/Users.cs:135-147 | absent id: NotFound and the table unchanged; present id: Ok with the row's last values, the key removed (a later Get is NotFound) and the count lowered by one |
| `UserEndpoints.UserStore.SearchByEmail` | Models/Users.cs:155-170 | BadRequest exactly when the email is null or empty; otherwise Ok with some stored row whose email equals the query, or NotFound exactly when no stored row has it |
| `UserEndpoints.UserStore.ByState` | Models/Users.cs:176-182 | always Ok (an empty list when nothing matches); a row is listed exactly when it is stored and its state equals the requested one; no two listed rows share an id, so each is listed once (no order is promised) |
| `UserEndpoints.UserStore.Count` | Models/Users.cs:188-191 | Ok with the number of stored rows, which is also the length of the id-ordered listing |

## Left out

- HTTP routing, model binding, status-code encoding, JSON camel-casing and the
  text of the error messages: only the result tag and its payload are kept.
  The `Created` location is kept as the key it names, not as the
  "/api/User/{id}" string.
- EF Core query translation, `async`/`await` and `SaveChangesAsync`: each
  handler is one atomic step on the map; storage and connection faults
  (which surface as unhandled server errors) are not modelled.
- Program.cs (service registration, the MySQL connection string, the
  Kestrel port 8089, Swagger) and Models/UsersDbContext.cs (a bare `DbSet`
  declaration) are not part of this model.
- `DateTime.UtcNow` is the parameter `now`; the database's key generation
  is the parameter `newId`, required to be absent from the table.
- `UserEndpoints.UserStore.Create`: the handler hands the body's `id` to
  `db.Users.Add` unchanged, and the model does not follow it there. It
  always stores the row under the free parameter `newId`. So for a non-zero
  `id` that is not yet taken, the service stores the row under that `id`,
  and the model agrees only when `newId` equals it. For a non-zero `id` that
  is already taken, the service fails with an unhandled storage error, an
  outcome the model does not have.
- `UserEndpoints.UserStore.List`: the C# `int` arithmetic of
  `(page - 1) * pageSize` can overflow for a huge `page`; the model computes
  with unbounded integers (the page is then simply empty) and does not model
  the wrap-around or what the database makes of a negative offset.
- `Pagination.TotalPages`: computed by exact integer ceiling division in
  place of `Math.Ceiling` on a `double`, which agrees with it for every
  `int` row count.
- Column widths: `id` and `age` are unbounded integers rather than 32-bit
  `int`; `latitude`/`longitude` are carried as opaque 64-bit patterns
  because nothing computes with them; `created_at` is a tick count.
- `UserEndpoints.UserStore.SearchByEmail`: which row `FirstOrDefaultAsync`
  returns when several rows share an email is the database's choice; the
  model takes the first in id order and its contract promises only some
  matching row.
- `UserEndpoints.UserStore.ByState`: the source does not order the result.
  The model happens to list it in id order, but its contract promises only
  which rows are listed and that no id appears twice.
- `UserTable.FirstWithEmail`: matching is modelled as exact equality of
  character sequences. In the service, `u.email == email` runs as SQL `=`
  on MySQL, and the column collation decides it (the default collations
  ignore case, and PAD SPACE ones also ignore trailing blanks). So a search
  that differs from the stored email only in case can find the row in the
  service but gives NotFound in the model.
- `UserTable.WithState`: matching is modelled as exact equality of
  character sequences. In the service, `u.state == state` runs as SQL `=`,
  and the database collation decides it, as for the email search.
