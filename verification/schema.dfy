/**
 The record shapes of the four tables of the PAP monitoring database
 (`microredes`, `establecimientos`, `usuarios`, `pruebas_pap`) and the
 database that holds them. Nullable columns are `Option`s; the primary key of
 each row lives in `Row.id`.
 */
module Schema {
  import opened Tables

  /** A row of `microredes`: a micro-network, a grouping of facilities. */
  datatype MicroNetwork = MicroNetwork(name: string)

  /** A row of `establecimientos`: a health facility and the id of its
      micro-network (nullable, and never checked against `microredes`). */
  datatype Facility = Facility(name: string, microNetworkId: Option<int>)

  /** A row of `usuarios`. The role is the free text the seed stores
      ("obstetra" for clinicians, "jefe" for the supervisor). */
  datatype User = User(username: string, password: string, role: string, facilityId: Option<int>)

  /** The `estado` column. It only ever receives the column default or one
      of the three options of the supervisor's select box. */
  datatype Status = Pending | InProgress | Completed {
    function Text(): (s: string)
      ensures s in ["pendiente", "en proceso", "completado"]
      ensures Pending? <==> s == "pendiente"
      ensures InProgress? <==> s == "en proceso"
      ensures Completed? <==> s == "completado"
    {
      match this
      case Pending => "pendiente"
      case InProgress => "en proceso"
      case Completed => "completado"
    }
  }

  /** Dates are stored as the ISO text the driver writes; nothing computes on them. */
  type Date = string

  /** A row of `pruebas_pap`: one PAP test. `result` is nullable free text. */
  datatype PapTest = PapTest(
    patientName: string,
    age: int,
    sampleDate: Date,
    deliveryDate: Date,
    facilityId: Option<int>,
    status: Status,
    result: Option<string>)

  datatype Db = Db(
    microNetworks: Table<MicroNetwork>,
    facilities: Table<Facility>,
    users: Table<User>,
    tests: Table<PapTest>)
  {
    ghost predicate Valid() {
      microNetworks.Valid() && facilities.Valid() && users.Valid() && tests.Valid()
    }
  }

  /** The database right after the four `CREATE TABLE` statements. */
  function EmptyDb(): (db: Db)
    ensures db.Valid()
    ensures |db.microNetworks.rows| == |db.facilities.rows| == |db.users.rows| == |db.tests.rows| == 0
  {
    Db(EmptyTable(), EmptyTable(), EmptyTable(), EmptyTable())
  }

  /** SQL `a = b` on nullable integer columns: NULL compares equal to nothing,
      not even to NULL. */
  predicate SqlEq(a: Option<int>, b: Option<int>) {
    a.Some? && b.Some? && a.value == b.value
  }

  /** The columns declared `UNIQUE`: `microredes.nombre`,
      `establecimientos.nombre` and `usuarios.username`. */
  function NetworkName(m: MicroNetwork): string { m.name }
  function FacilityName(f: Facility): string { f.name }
  function Username(u: User): string { u.username }

  /** A database that respects its `UNIQUE` constraints. */
  ghost predicate UniqueNames(db: Db) {
    && UniqueKeys(db.microNetworks.rows, NetworkName)
    && UniqueKeys(db.facilities.rows, FacilityName)
    && UniqueKeys(db.users.rows, Username)
  }
}
