# PAP-test monitoring dashboard: a Dafny model of its data layer

`app.py` is a single-file Streamlit dashboard for monitoring cervical
cancer screening (PAP) tests in a regional health network. It keeps four
SQLite tables: micro-networks (`microredes`), health facilities
(`establecimientos`), users (`usuarios`) and PAP tests (`pruebas_pap`).
This project models what the program does to, and reads from, those
tables:

- the start-up seeding: three check-before-insert loops that store 7
  micro-networks, 10 facilities linked to them, and 11 users (10 clinicians,
  "obstetra", each linked to a facility; one supervisor, "jefe", with no
  facility);
- the login lookup (`autenticar_usuario`), the facility / micro-network
  join of the side panel (`obtener_info_establecimiento`) and the four
  per-facility counts (`obtener_estadisticas`);
- the clinician's register `INSERT` and the supervisor's
  `UPDATE … SET estado, resultado WHERE id`;
- the clinician's per-facility listing and the supervisor's global listing,
  which is an inner join with the facilities;
- the session: log in, log out, and which listing the role selects.

Modules, one file each:

- `tables.dfy` (`Tables`): a generic table with an AUTOINCREMENT
  primary key; `fetchone()` as "first match in storage order"; look-up
  and insert-unless-present on a `UNIQUE` column.
- `schema.dfy` (`Schema`): the row types, the database, and SQL equality on
  nullable ids.
- `seed.dfy` (`Seed`): the three seeding loops and start-up.
- `queries.dfy` (`Queries`): the read queries.
- `writes.dfy` (`Writes`): the register and update statements.
- `sessions.dfy` (`Sessions`): log in, log out and the role gate.
- `seeded_logins.dfy` (`SeededLogins`): logging in against the seeded
  database.

Conventions:

- SQL `NULL` is `None`.
- A comparison `col = ?` never holds when either side is `NULL`
  (`Schema.SqlEq`). For a clinician with a null facility the listing is
  empty and the count queries would return zeros; the dashboard shows no
  counts at all for such a user (app.py:191).
- Rows keep storage (rowid) order.
- `Valid()` on a table states what AUTOINCREMENT guarantees: ids are
  positive, increasing, and below the counter.
- `UniqueKeys` states the `UNIQUE` constraints.

The middle status is the text "en proceso" (app.py:250).

## Model

| member | source | states |
|---|---|---|
| Tables.EmptyTable | app.py:13-18 | a freshly created table is empty and valid: the first id it will hand out is 1 |
| Tables.Table.Insert | app.py:63 | an INSERT appends exactly one row holding the given columns, keeps every stored row, and gives the new row an id no stored row has, preserving validity |
| Tables.IdsUnique | app.py:15 | in a valid table the primary key identifies at most one row |
| Tables.FirstMatch | app.py:61-62 | fetchone returns None exactly when no row satisfies the WHERE clause; otherwise it returns a satisfying row with no satisfying row before it |
| Tables.IdByKey | app.py:61-62 | looking up an id by name finds one exactly when a row with that name is stored, and the id found belongs to a row with that name |
| Tables.IdByKeyUnique | app.py:16 | under the UNIQUE constraint the id found by name is the id of the one row carrying that name |
| Tables.InsertIfAbsent | app.py:61-63 | check-then-insert leaves the table unchanged when the name is stored, otherwise appends exactly the new row; afterwards the name is stored; validity and uniqueness of names are preserved |
| Tables.InsertedKeys | app.py:63 | inserting a row adds no name other than the new row's own |
| Schema.Status.Text | app.py:250 | the status column only takes the texts "pendiente", "en proceso" and "completado", one per status, "pendiente" being the pending one (the column default of app.py:48) |
| Schema.EmptyDb | app.py:13-52 | the database right after the CREATE TABLE statements is valid and all four tables are empty |
| Seed.SeedNetworks | app.py:58-63 | the micro-network loop keeps every stored row, leaves every listed name stored, and preserves validity and name uniqueness |
| Seed.SeedNetworksSound | app.py:58-63 | every row the micro-network loop adds carries a listed name |
| Seed.SeedNetworksNoop | app.py:60-63 | when every listed name is already stored, the loop inserts nothing |
| Seed.SeedNetworksIdempotent | app.py:57-65 | running the micro-network loop a second time changes nothing |
| Seed.SeedNetworksExactlyOnce | app.py:58-63 | starting from a table with unique names, every listed micro-network ends up stored exactly once |
| Seed.LinkedFacility | app.py:82-86 | a facility entry yields a row exactly when its micro-network is stored, and that row is linked to the id of a stored micro-network of that name |
| Seed.SeedFacilities | app.py:81-89 | the facility loop keeps every stored row, stores every entry whose micro-network exists, and preserves validity and name uniqueness |
| Seed.SeedFacilitiesSound | app.py:81-89 | every row the facility loop adds is an entry whose micro-network exists, linked to that micro-network |
| Seed.SeedFacilitiesNoop | app.py:81-89 | when every entry with a stored micro-network is already present, the loop inserts nothing |
| Seed.SeedFacilitiesIdempotent | app.py:81-89 | running the facility loop a second time over the same micro-networks changes nothing |
| Seed.ResolveFacility | app.py:109-114 | a user's facility id is null exactly when the entry names no facility, names the empty string, or names a facility that is not stored; otherwise it is the id of a stored facility with that name |
| Seed.ResolvedUser | app.py:108-119 | the row for a user entry carries the entry's username, password and role, and a null facility exactly when the name does not resolve |
| Seed.SeedUsers | app.py:108-119 | the user loop keeps every stored row, leaves every listed username stored, and preserves validity and username uniqueness |
| Seed.SeedUsersSound | app.py:108-119 | every row the user loop adds is one of the entries with its facility resolved |
| Seed.SeedUsersNoop | app.py:116-119 | when every listed username is already stored, the loop inserts nothing |
| Seed.SeedUsersIdempotent | app.py:108-119 | running the user loop a second time changes nothing |
| Seed.SeedAll | app.py:57-121 | start-up never touches the PAP tests, only appends rows to the other three tables, and preserves validity and every UNIQUE constraint |
| Seed.StartupIdempotent | app.py:57-121 | a second start on any database adds nothing: start-up is idempotent |
| Seed.SupervisorEntry | app.py:105 | the only user entry named "jefe" names no facility |
| Seed.SeedUsersNullFacility | app.py:108-119 | a user whose entries all name no facility is stored with a null facility |
| Seed.SupervisorSeededWithoutFacility | app.py:105-119 | the supervisor row the user loop adds has a null facility, whatever facilities are stored |
| Seed.SeedNetworksFresh | app.py:60-63 | fresh, pairwise distinct names are all inserted, one row each |
| Seed.SeedFacilitiesFresh | app.py:81-89 | fresh, distinct facility entries whose micro-networks exist are all inserted, one row each |
| Seed.SeedUsersFresh | app.py:108-119 | fresh, distinct usernames are all inserted, one row each |
| Seed.NetworkSeedsDistinct | app.py:58 | the micro-network list has no repeated name |
| Seed.FacilitySeedsLinked | app.py:68-79 | every facility entry names a micro-network of the micro-network list |
| Seed.FacilitySeedsDistinct | app.py:68-79 | the facility list has no repeated name |
| Seed.UserSeedsDistinct | app.py:94-106 | the user list has no repeated username |
| Seed.NetworksFromEmpty | app.py:57-65 | the first start on an empty database stores exactly 7 micro-networks |
| Seed.FacilitiesFromEmpty | app.py:67-91 | the first start on an empty database stores all 10 facilities |
| Seed.UsersFromEmpty | app.py:93-121 | the first start on an empty database stores all 11 users and no PAP test |
| Queries.Authenticate | app.py:127-129 | the login query returns a row exactly when some user has both that username and that password, and what it returns is the id, role and facility of such a user |
| Queries.AuthenticateUnique | app.py:127-129 | with unique usernames the login returns precisely the user holding those credentials |
| Queries.NetworkOf | app.py:136 | a facility joins with a micro-network exactly when its link is not null and names a stored micro-network id |
| Queries.GetFacilityInfo | app.py:132-139 | the side-panel lookup is None exactly when no (facility, micro-network) pair joins for that id; otherwise it returns the names of a joined pair |
| Queries.FacilityInfoIsJoin | app.py:132-139 | with unique primary keys the lookup returns the names of THE joined pair |
| Queries.Select | app.py:143-153 | a filtered scan returns only rows of the facility that pass the result filter, and every such row, never more rows than stored |
| Queries.SelectIsFilter | app.py:143-153 | a filtered scan holds each in-scope row exactly as often as it is stored and no other row |
| Queries.CountMatches | app.py:143-153 | COUNT(*) is the number of stored rows the WHERE clause holds of |
| Queries.CountPartition | app.py:142-155 | positives, negatives and tests without result never add up to more than the total, and add up to it exactly when every test of the facility has result "positivo", "negativo" or NULL |
| Queries.AllClassifiedSnoc | app.py:142-155 | a facility's tests all have a recognised result exactly when the earlier ones do and the last one, if it is the facility's, does |
| Queries.SelectNone | app.py:143-153 | a facility with no tests selects nothing |
| Queries.GetStatistics | app.py:142-155 | each of positives, negatives and tests without result is at most the total; the three add up to the total exactly when every result of the facility is "positivo", "negativo" or NULL; a facility without tests, or a NULL facility id, gets (0, 0, 0, 0) |
| Queries.StatisticsCountRows | app.py:142-155 | the total is the number of the facility's stored tests, and positives, negatives and tests without result the number of those whose result is "positivo", "negativo" and NULL |
| Queries.FacilityListing | app.py:223-227 | the clinician's listing holds only stored tests of the given facility, and every one of them |
| Queries.JoinTest | app.py:237-241 | the join rows of one test pair it with facilities whose id equals its facility id, and with each such facility |
| Queries.GlobalListing | app.py:237-241 | the supervisor's listing is the inner join: every row pairs a stored test with a facility it references, under that facility's name, and every such pair appears |
| Queries.JoinTestAtMostOne | app.py:237-241 | with unique facility ids a test joins with at most one facility, and with exactly one when its facility exists |
| Queries.GlobalListingSize | app.py:237-241 | with unique facility ids the global listing has one row per test whose facility exists: tests with a NULL or dangling facility are dropped, nothing is duplicated |
| Writes.RegisterTest | app.py:213-216 | registering appends exactly one row with the given name, age, dates and facility, status text "pendiente" from the column default and a NULL result; stored rows are kept and the new id is fresh |
| Writes.RegisterStatistics | app.py:213-216 | registering raises its facility's total and "without result" counts by one and leaves its positives and negatives unchanged; every other facility's statistics stay the same |
| Writes.RegisterListing | app.py:213-227 | after registering for a facility, that facility's listing is the old listing followed by the new test |
| Writes.UpdateTest | app.py:255-259 | the update changes only status and result, only on the row with that id; an unknown id changes nothing and is not an error; validity is preserved |
| Writes.UpdateReadBack | app.py:255-259 | in a valid table, reading back after an update shows the new status and result with the other columns intact, and every other row unchanged |
| Writes.UpdateRowsCounts | app.py:255-259 | an update keeps every facility's total and can only lower its count of tests without result |
| Writes.UpdateStatistics | app.py:255-259 | an update keeps each facility's total and never raises its "without result" count |
| Writes.UpdatedTestHasResult | app.py:251-259 | after an update the updated test no longer counts as without result |
| Sessions.Login | app.py:157-170 | from an anonymous session the login succeeds exactly when some user has those credentials and stores that user's (id, role, facility); a signed-in session is left as it is |
| Sessions.Logout | app.py:271-273 | logging out always leaves the session anonymous |
| Sessions.PanelFor | app.py:199-241 | the per-facility listing is shown exactly to an "obstetra", holding only tests of the session's facility; the global listing is shown exactly to a "jefe", holding every joined (test, facility) pair |
| SeededLogins.EntryRow | app.py:108-119 | seeding users into an empty table stores every entry's username, each on at most one row |
| SeededLogins.UniqueEntryRow | app.py:108-119 | the stored row for a username that one entry alone carries is that entry with its facility resolved |
| SeededLogins.SeededSignIn | app.py:127-129 | after seeding, an entry with a unique username signs in with its password, with its role and its resolved facility |
| SeededLogins.SeededReject | app.py:127-129 | after seeding, a username no entry carries signs nobody in, whatever the password |
| SeededLogins.ClinicianEntry | app.py:95 | "obstetra1" is the first user entry, with password "12345", role "obstetra" and facility "Establecimiento A", and no other entry carries that username |
| SeededLogins.SupervisorEntryIsLast | app.py:105 | "jefe" is the last user entry, with password "admin123", role "jefe" and no facility, and no other entry carries that username |
| SeededLogins.StoredResolves | app.py:110-114 | a non-empty stored facility name resolves to a facility id |
| SeededLogins.FacilityAStored | app.py:69 | "Establecimiento A" is stored after any start, because its micro-network "Acora" is |
| SeededLogins.ClinicianSignsIn | app.py:95 | wherever "Establecimiento A" is stored, "obstetra1" signs in as a clinician linked to a facility |
| SeededLogins.SupervisorSignsIn | app.py:105 | "jefe" signs in as supervisor with no facility, whatever facilities are stored |
| SeededLogins.SeededClinicianSignsIn | app.py:165-168 | on the freshly seeded database "obstetra1" / "12345" signs in with role "obstetra" and a facility |
| SeededLogins.SeededSupervisorSignsIn | app.py:165-168 | on the freshly seeded database "jefe" / "admin123" signs in with role "jefe" and a null facility |
| SeededLogins.UnknownSignsInNobody | app.py:127-129 | credentials of no seeded user sign nobody in, whatever facilities are stored |
| SeededLogins.UnknownUserRejected | app.py:165-170 | on the freshly seeded database unknown credentials leave the session anonymous |

## Left out

- The user interface: the page layout, the widgets and messages, and the
  rendering of tables through pandas (`st.*`, `pd.DataFrame`). The
  listings return whole rows; the column projection (app.py:224, 238) is
  only display.
- The side-panel rendering (app.py:176-197). Its unpacking of the session
  value when the key holds `None` is a display-path quirk and is not
  modelled. Only the queries it calls are modelled.
- The sqlite driver, `commit` and the connection. Every statement is
  applied atomically to an in-memory value.
- Foreign-key enforcement. SQLite does not enforce foreign keys by default,
  so `microred_id` and `establecimiento_id` may be NULL or dangling. The
  model allows both and the joins drop such rows.
- The `try`/`except` around the update and the half-second sleep
  (app.py:254-266). The model's update cannot fail.
- Dates are opaque text. Nothing in the program computes on them.
- Writes.RegisterTest: the age range 10-100 (app.py:207) is enforced only by
  the input widget, not by the table, so it is not a precondition.
- Writes.UpdateTest: the id widget's lower bound of 1 (app.py:247) is not a
  precondition. Any id is accepted, and one that is not stored changes
  nothing.
- Sessions.Login: the session key being absent and the key holding `None`
  both appear as the single state `Anonymous`.
- Concurrent sessions sharing one connection are not modelled.
