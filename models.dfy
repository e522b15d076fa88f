/**
 * Record shapes of the library database (the ORM classes of models.py and usuario.py)
 * and the schema facts the circulation engine relies on.
 */
module Models {
  import opened Wrappers

  /** Primary keys are database serials: they start at 1, so a key that is present is never falsy. */
  type Id = n: nat | 1 <= n witness 1

  /** Status of a copy. The seed script inserts them in this order, which fixes their ids. */
  datatype Estado = Disponible | Prestado | Reservado | Danado

  /** The id the seed order gives each status. */
  function EstadoId(e: Estado): (id: Id)
    ensures id <= 4
  {
    match e
    case Disponible => 1
    case Prestado => 2
    case Reservado => 3
    case Danado => 4
  }

  /** The status row with a given id, if the seed created one. */
  function EstadoFromId(id: int): (e: Option<Estado>)
    ensures e.Some? <==> 1 <= id <= 4
    ensures e.Some? ==> EstadoId(e.value) == id
  {
    if id == 1 then Some(Disponible)
    else if id == 2 then Some(Prestado)
    else if id == 3 then Some(Reservado)
    else if id == 4 then Some(Danado)
    else None
  }

  /** The status id that the controllers write and filter on for a pending loan request. */
  const PendingEstadoId: Id := 3

  /** The status a pending loan request carries. */
  const PendingEstado: Estado := EstadoFromId(PendingEstadoId).value

  datatype EstadoPrestamo = Activo | Devuelto

  datatype EstadoReserva = Activa | Cancelada | Completada

  datatype EstadoPago = Pendiente | Pagada

  /** Dates are day numbers; `fecha_solicitud`, `fecha_reserva` and `fecha_generacion` are timestamps. */
  datatype Material = Material(
    titulo: string,
    descripcion: Option<string>,
    idIdioma: Option<Id>,
    tipoMaterial: string,
    anioPublicacion: Option<int>,
    isbn: Option<string>)

  /** A copy belongs to exactly one material and has exactly one status: both keys are not null. */
  datatype Copia = Copia(
    idMaterial: Id,
    estado: Estado,
    codigoCopia: string,
    ubicacion: Option<string>,
    coleccion: Option<string>,
    formato: string,
    fechaAdquisicion: int)

  /** The due date is required, the actual return date is not. */
  datatype Prestamo = Prestamo(
    idCopia: Option<Id>,
    idUsuario: Option<Id>,
    fechaPrestamo: int,
    fechaDevolucionPrevista: int,
    fechaDevolucionReal: Option<int>,
    estado: EstadoPrestamo,
    multa: int)

  datatype Reserva = Reserva(
    idCopia: Option<Id>,
    idUsuario: Option<Id>,
    fechaReserva: int,
    estado: EstadoReserva)

  /** A loan request. Its copy and user become null when those rows are deleted; its status and due date are required. */
  datatype Movimiento = Movimiento(
    idCopia: Option<Id>,
    idUsuario: Option<Id>,
    estado: Estado,
    fechaSolicitud: int,
    fechaDevolucion: int)

  /** A fine: loan, copy, user, days late and amount are all required. */
  datatype Multa = Multa(
    idPrestamo: Id,
    idCopia: Id,
    idUsuario: Id,
    diasAtraso: int,
    monto: int,
    fechaGeneracion: int,
    estadoPago: EstadoPago,
    fechaPago: Option<int>)

  datatype Rol = Rol(nombre: string)

  /** A user with the bcrypt hash of the password (possibly null) and the roles attached through usuario_rol. */
  datatype Usuario = Usuario(
    nombre: string,
    correo: string,
    passwordHash: Option<string>,
    roles: seq<Rol>)

  /** The exceptions the controllers raise. The status lookups by name cannot fail on a closed `Estado`, so they have no case. */
  datatype Error =
    | FineBlocked           // the user has an unpaid fine
    | NoAvailableCopy       // no copy of the material is available
    | NoLoanedCopy          // no copy of the material is on loan
    | DuplicateReservation  // the user already holds an active reservation on the copy
    | MovimientoNotFound
    | NoCopyLinked          // the request has no copy
    | CopyNotFound
    | NoUserLinked          // the request has no user
    | ReservaNotFound

  /** A loan row as inserted: no actual return date yet, the fine column at its default of 0. */
  function NewPrestamo(idCopia: Id, idUsuario: Id, fechaPrestamo: int, prevista: int): Prestamo
  {
    Prestamo(Some(idCopia), Some(idUsuario), fechaPrestamo, prevista, None, Activo, 0)
  }

  /** A fine row as inserted: payment pending by default and no payment date. */
  function NewMulta(idPrestamo: Id, idCopia: Id, idUsuario: Id, dias: int, monto: int, now: int): Multa
  {
    Multa(idPrestamo, idCopia, idUsuario, dias, monto, now, Pendiente, None)
  }

  /** The contents of every table, with the next value of each serial key that the engine inserts into. */
  datatype Tables = Tables(
    materiales: map<Id, Material>,
    copias: map<Id, Copia>,
    movimientos: map<Id, Movimiento>,
    prestamos: map<Id, Prestamo>,
    reservas: map<Id, Reserva>,
    multas: map<Id, Multa>,
    usuarios: map<Id, Usuario>,
    roles: map<Id, Rol>,
    nextMovimiento: Id,
    nextPrestamo: Id,
    nextReserva: Id,
    nextMulta: Id,
    nextUsuario: Id)

  /** `codigo_copia` is unique. */
  ghost predicate UniqueCodigos(copias: map<Id, Copia>)
  {
    forall a, b :: a in copias && b in copias && a != b ==> copias[a].codigoCopia != copias[b].codigoCopia
  }

  /** `rol.nombre` is unique. */
  ghost predicate UniqueRoleNames(roles: map<Id, Rol>)
  {
    forall a, b :: a in roles && b in roles && a != b ==> roles[a].nombre != roles[b].nombre
  }

  /** `usuario.correo` is unique. */
  ghost predicate UniqueCorreos(usuarios: map<Id, Usuario>)
  {
    forall a, b :: a in usuarios && b in usuarios && a != b ==> usuarios[a].correo != usuarios[b].correo
  }

  ghost predicate KeysBelow<T>(m: map<Id, T>, next: Id)
  {
    forall k :: k in m ==> k < next
  }

  /** A loan references an existing copy (RESTRICT on delete) and a user. */
  predicate LoanLinked(copias: map<Id, Copia>, p: Prestamo)
  {
    p.idCopia.Some? && p.idCopia.value in copias && p.idUsuario.Some?
  }

  /** A reservation references an existing copy (RESTRICT on delete). */
  predicate ReservationLinked(copias: map<Id, Copia>, r: Reserva)
  {
    r.idCopia.Some? && r.idCopia.value in copias
  }

  /** The schema invariants the engine keeps. */
  ghost predicate WellFormed(t: Tables)
  {
    && KeysBelow(t.movimientos, t.nextMovimiento)
    && KeysBelow(t.prestamos, t.nextPrestamo)
    && KeysBelow(t.reservas, t.nextReserva)
    && KeysBelow(t.multas, t.nextMulta)
    && KeysBelow(t.usuarios, t.nextUsuario)
    && UniqueCodigos(t.copias)
    && UniqueRoleNames(t.roles)
    && UniqueCorreos(t.usuarios)
    && (forall p :: p in t.prestamos ==> LoanLinked(t.copias, t.prestamos[p]))
    && (forall r :: r in t.reservas ==> ReservationLinked(t.copias, t.reservas[r]))
  }

  /** Loan requests waiting for a librarian: those in status 3. */
  function PendingRequests(movimientos: map<Id, Movimiento>): set<Id>
  {
    set m | m in movimientos && movimientos[m].estado == PendingEstado
  }

  /** Loans not yet returned. */
  function ActiveLoans(prestamos: map<Id, Prestamo>): set<Id>
  {
    set p | p in prestamos && prestamos[p].estado == Activo
  }

  /** The active reservations on copy `c`: its waitlist. */
  function Waiters(reservas: map<Id, Reserva>, c: Id): set<Id>
  {
    set r | r in reservas && reservas[r].idCopia == Some(c) && reservas[r].estado == Activa
  }

  /** At most one active reservation per (copy, user) pair. */
  ghost predicate OneActivePerPair(reservas: map<Id, Reserva>)
  {
    forall a, b :: a in reservas && b in reservas && a != b && reservas[a].estado == Activa && reservas[b].estado == Activa
      ==> reservas[a].idCopia != reservas[b].idCopia || reservas[a].idUsuario != reservas[b].idUsuario
  }

  /** The copy table differs at most in the status of copies. */
  ghost predicate OnlyEstadosChanged(before: map<Id, Copia>, after: map<Id, Copia>)
  {
    before.Keys == after.Keys && forall c :: c in before ==> after[c] == before[c].(estado := after[c].estado)
  }

  /** Changing statuses keeps copy codes unique and keeps every loan and reservation linked. */
  lemma StatusChangeKeepsSchema(t: Tables, copias: map<Id, Copia>)
    requires WellFormed(t) && OnlyEstadosChanged(t.copias, copias)
    ensures WellFormed(t.(copias := copias))
  {
    forall a, b | a in copias && b in copias && a != b
      ensures copias[a].codigoCopia != copias[b].codigoCopia
    {
      assert copias[a].codigoCopia == t.copias[a].codigoCopia;
      assert copias[b].codigoCopia == t.copias[b].codigoCopia;
    }
  }

  /** The one kind of write the engine makes to a copy: `copia.id_estado = ...`. */
  function SetEstado(t: Tables, c: Id, e: Estado): Tables
    requires c in t.copias
  {
    t.(copias := t.copias[c := t.copias[c].(estado := e)])
  }

  lemma SetEstadoKeepsWellFormed(t: Tables, c: Id, e: Estado)
    requires WellFormed(t) && c in t.copias
    ensures WellFormed(SetEstado(t, c, e))
    ensures OnlyEstadosChanged(t.copias, SetEstado(t, c, e).copias)
  {
    StatusChangeKeepsSchema(t, SetEstado(t, c, e).copias);
  }

  /** Deleting a loan request keeps the schema invariants. */
  lemma DropMovimientoKeepsWellFormed(t: Tables, id: Id)
    requires WellFormed(t)
    ensures WellFormed(t.(movimientos := t.movimientos - {id}))
  {
  }

  /** The one kind of write the engine makes to a reservation: `reserva.estado = ...`. */
  function SetReservaEstado(t: Tables, id: Id, e: EstadoReserva): Tables
    requires id in t.reservas
  {
    t.(reservas := t.reservas[id := t.reservas[id].(estado := e)])
  }

  /** Closing a reservation takes it off its copy's waitlist and off no other, and keeps one active reservation per pair. */
  lemma CloseReservaLeavesWaitlist(t: Tables, id: Id, e: EstadoReserva, c: Id)
    requires id in t.reservas && e != Activa
    ensures Waiters(SetReservaEstado(t, id, e).reservas, c) == Waiters(t.reservas, c) - {id}
    ensures OneActivePerPair(t.reservas) ==> OneActivePerPair(SetReservaEstado(t, id, e).reservas)
    ensures WellFormed(t) ==> WellFormed(SetReservaEstado(t, id, e))
  {
    assert Waiters(SetReservaEstado(t, id, e).reservas, c) == Waiters(t.reservas, c) - {id};
  }

  /** The copies of material `id`: the rows `cascade="all, delete-orphan"` deletes with it. */
  function CopiesOf(copias: map<Id, Copia>, id: Id): set<Id>
  {
    set c | c in copias && copias[c].idMaterial == id
  }

  /** Some loan, reservation or fine references a copy in `gone`: their RESTRICT foreign keys refuse the delete. */
  predicate Restricts(t: Tables, gone: set<Id>)
  {
    || (exists p :: p in t.prestamos && t.prestamos[p].idCopia.Some? && t.prestamos[p].idCopia.value in gone)
    || (exists r :: r in t.reservas && t.reservas[r].idCopia.Some? && t.reservas[r].idCopia.value in gone)
    || (exists f :: f in t.multas && t.multas[f].idCopia in gone)
  }

  /** delete_material returns False for a missing material; the commit fails when a RESTRICT key refuses. */
  datatype DeleteResult = NotFound | Restricted | Deleted(tables: Tables)

  /** ON DELETE SET NULL: a request whose copy is deleted keeps its row and loses the copy. */
  function Unlink(m: Movimiento, gone: set<Id>): Movimiento
  {
    if m.idCopia.Some? && m.idCopia.value in gone then m.(idCopia := None) else m
  }

  /** Deleting a material with its copies, under the foreign-key actions the schema declares. */
  function DeleteMaterial(t: Tables, id: Id): (r: DeleteResult)
    ensures r.NotFound? <==> id !in t.materiales
    ensures r.Restricted? <==> id in t.materiales && Restricts(t, CopiesOf(t.copias, id))
    ensures r.Deleted? ==>
      && r.tables.materiales.Keys == t.materiales.Keys - {id}
      && (forall k :: k in r.tables.materiales ==> r.tables.materiales[k] == t.materiales[k])
      && (forall c :: c in r.tables.copias <==> c in t.copias && t.copias[c].idMaterial != id)
      && (forall c :: c in r.tables.copias ==> r.tables.copias[c] == t.copias[c])
      && r.tables.movimientos.Keys == t.movimientos.Keys
      && (forall m :: m in t.movimientos ==>
            r.tables.movimientos[m] ==
              if t.movimientos[m].idCopia.Some? && t.movimientos[m].idCopia.value in CopiesOf(t.copias, id)
              then t.movimientos[m].(idCopia := None) else t.movimientos[m])
      && r.tables.(materiales := t.materiales, copias := t.copias, movimientos := t.movimientos) == t
  {
    if id !in t.materiales then NotFound
    else
      var gone := CopiesOf(t.copias, id);
      if Restricts(t, gone) then Restricted
      else
        Deleted(t.(materiales := t.materiales - {id},
                   copias := map c | c in t.copias && c !in gone :: t.copias[c],
                   movimientos := map m | m in t.movimientos :: Unlink(t.movimientos[m], gone)))
  }

  /**
   * A delete that goes through keeps the schema invariants, and leaves no row that names a
   * deleted copy: no copy of the material remains and no request still points at one.
   */
  lemma DeleteMaterialKeepsWellFormed(t: Tables, id: Id)
    requires WellFormed(t) && DeleteMaterial(t, id).Deleted?
    ensures var after := DeleteMaterial(t, id).tables;
      && WellFormed(after)
      && CopiesOf(after.copias, id) == {}
      && (forall m :: m in after.movimientos && after.movimientos[m].idCopia.Some? ==>
            after.movimientos[m].idCopia.value !in CopiesOf(t.copias, id))
      && (forall f :: f in after.multas ==> after.multas[f].idCopia !in CopiesOf(t.copias, id))
  {
    var after := DeleteMaterial(t, id).tables;
    var gone := CopiesOf(t.copias, id);
    assert !Restricts(t, gone);
    forall p | p in after.prestamos
      ensures LoanLinked(after.copias, after.prestamos[p])
    {
      var c := t.prestamos[p].idCopia.value;
      assert c !in gone;
    }
    forall r | r in after.reservas
      ensures ReservationLinked(after.copias, after.reservas[r])
    {
      var c := t.reservas[r].idCopia.value;
      assert c !in gone;
    }
  }

  /** A loan of one of the material's copies refuses the delete, whatever its status. */
  lemma LoanRestrictsDelete(t: Tables, id: Id, p: Id)
    requires id in t.materiales && p in t.prestamos && LoanLinked(t.copias, t.prestamos[p])
    requires t.copias[t.prestamos[p].idCopia.value].idMaterial == id
    ensures DeleteMaterial(t, id) == Restricted
  {
    assert t.prestamos[p].idCopia.value in CopiesOf(t.copias, id);
  }
}
