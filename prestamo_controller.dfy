/**
 * The librarian's side of loan requests: the pending queue, approval (which turns a request
 * into a loan) and rejection, and the loan listings.
 */
module PrestamoController {
  import opened Wrappers
  import opened Models
  import opened Store
  import Query

  /** The pending queue: requests whose status id is 3, newest request first. */
  method GetMovimientosPendientes(s: Session) returns (ids: seq<Id>)
    ensures forall m :: m in ids <==> m in s.movimientos && s.movimientos[m].estado == PendingEstado
    ensures Query.NoDuplicates(ids)
    ensures forall i, j :: 0 <= i < j < |ids| ==> s.movimientos[ids[i]].fechaSolicitud >= s.movimientos[ids[j]].fechaSolicitud
  {
    ids := Query.SelectDesc(s.movimientos, (m: Movimiento) => EstadoId(m.estado) == PendingEstadoId, (m: Movimiento) => m.fechaSolicitud);
  }

  // ---------------------------------------------------------------- approval

  /** The guards of aprobar_prestamo, in the order they run. Whether the request is still pending is not among them. */
  function AprobarCheck(t: Tables, id: Id): Option<Error>
  {
    if id !in t.movimientos then Some(MovimientoNotFound)
    else if t.movimientos[id].idCopia.None? then Some(NoCopyLinked)
    else if t.movimientos[id].idCopia.value !in t.copias then Some(CopyNotFound)
    else if t.movimientos[id].idUsuario.None? then Some(NoUserLinked)
    else None
  }

  /** Approval of request `id` on `today`: a new active loan, due on the request's return date; the copy and the request both become prestado. */
  function AprobarEffect(t: Tables, id: Id, today: int): Tables
    requires AprobarCheck(t, id).None?
  {
    var mv := t.movimientos[id];
    var c := mv.idCopia.value;
    SetEstado(t, c, Prestado).(
      prestamos := t.prestamos[t.nextPrestamo := NewPrestamo(c, mv.idUsuario.value, today, mv.fechaDevolucion)],
      nextPrestamo := t.nextPrestamo + 1,
      movimientos := t.movimientos[id := mv.(estado := Prestado)])
  }

  /** aprobar_prestamo: returns the id of the new loan, or the error it raises. */
  method AprobarPrestamo(s: Session, id: Id, today: int) returns (r: Result<Id, Error>)
    requires s.Valid()
    modifies s
    ensures s.Valid()
    ensures r.Failure? <==> AprobarCheck(old(s.State()), id).Some?
    ensures r.Failure? ==> r.error == AprobarCheck(old(s.State()), id).value && s.State() == old(s.State())
    ensures r.Success? ==> r.value == old(s.nextPrestamo) && s.State() == AprobarEffect(old(s.State()), id, today)
  {
    if id !in s.movimientos {
      return Failure(MovimientoNotFound);
    }
    var mv := s.movimientos[id];
    if mv.idCopia.None? {
      return Failure(NoCopyLinked);
    }
    var c := mv.idCopia.value;
    if c !in s.copias {
      return Failure(CopyNotFound);
    }
    if mv.idUsuario.None? {
      return Failure(NoUserLinked);
    }
    ghost var before := s.State();
    var p := s.nextPrestamo;
    s.prestamos := s.prestamos[p := NewPrestamo(c, mv.idUsuario.value, today, mv.fechaDevolucion)];
    s.nextPrestamo := p + 1;
    s.copias := s.copias[c := s.copias[c].(estado := Prestado)];
    s.movimientos := s.movimientos[id := mv.(estado := Prestado)];
    assert s.State() == AprobarEffect(before, id, today);
    AprobarKeepsWellFormed(before, id, today);
    r := Success(p);
  }

  lemma AprobarKeepsWellFormed(t: Tables, id: Id, today: int)
    requires WellFormed(t) && AprobarCheck(t, id).None?
    ensures WellFormed(AprobarEffect(t, id, today))
  {
    SetEstadoKeepsWellFormed(t, t.movimientos[id].idCopia.value, Prestado);
  }

  /** Approval adds exactly one loan, active, for the request's copy and user, lent today and due on the request's return date. */
  lemma AprobarCreatesLoan(t: Tables, id: Id, today: int)
    requires WellFormed(t) && AprobarCheck(t, id).None?
    ensures var after := AprobarEffect(t, id, today);
      && t.nextPrestamo !in t.prestamos
      && after.prestamos.Keys == t.prestamos.Keys + {t.nextPrestamo}
      && ActiveLoans(after.prestamos) == ActiveLoans(t.prestamos) + {t.nextPrestamo}
    ensures var after := AprobarEffect(t, id, today);
      var loan := after.prestamos[t.nextPrestamo];
      && loan.idCopia == t.movimientos[id].idCopia
      && loan.idUsuario == t.movimientos[id].idUsuario
      && loan.fechaPrestamo == today
      && loan.fechaDevolucionPrevista == t.movimientos[id].fechaDevolucion
      && loan.fechaDevolucionReal.None?
      && loan.estado == Activo
      && loan.multa == 0
    ensures forall q :: q in t.prestamos ==> AprobarEffect(t, id, today).prestamos[q] == t.prestamos[q]
  {
    var after := AprobarEffect(t, id, today);
    assert ActiveLoans(after.prestamos) == ActiveLoans(t.prestamos) + {t.nextPrestamo};
  }

  /** After approval the copy is prestado, no other copy changes, and the request leaves the pending queue. */
  lemma AprobarLeavesQueue(t: Tables, id: Id, today: int)
    requires AprobarCheck(t, id).None?
    ensures var c := t.movimientos[id].idCopia.value;
      AprobarEffect(t, id, today).copias[c].estado == Prestado
    ensures var c := t.movimientos[id].idCopia.value;
      forall d :: d in t.copias && d != c ==> AprobarEffect(t, id, today).copias[d] == t.copias[d]
    ensures AprobarEffect(t, id, today).movimientos[id].estado == Prestado
    ensures PendingRequests(AprobarEffect(t, id, today).movimientos) == PendingRequests(t.movimientos) - {id}
    ensures AprobarEffect(t, id, today).reservas == t.reservas && AprobarEffect(t, id, today).multas == t.multas
  {
    var after := AprobarEffect(t, id, today);
    assert PendingRequests(after.movimientos) == PendingRequests(t.movimientos) - {id};
  }

  /**
   * The request's status is not checked: a request approved once passes the guards again, so a
   * second approval would lend the same copy a second time. Only the librarian's screen, which
   * lists pending requests alone, prevents it.
   */
  lemma AprobarTwicePasses(t: Tables, id: Id, today: int)
    requires AprobarCheck(t, id).None?
    ensures AprobarCheck(AprobarEffect(t, id, today), id).None?
    ensures id !in PendingRequests(AprobarEffect(t, id, today).movimientos)
  {
  }

  // ---------------------------------------------------------------- rejection

  /** Rejection of request `id`: its copy, if it still has one, becomes available, and the request row is deleted. */
  function RechazarEffect(t: Tables, id: Id): Tables
    requires id in t.movimientos
  {
    ReleaseCopy(t, t.movimientos[id].idCopia).(movimientos := t.movimientos - {id})
  }

  /** The copy a request names, if it still exists, becomes available. */
  function ReleaseCopy(t: Tables, c: Option<Id>): Tables
  {
    if c.Some? && c.value in t.copias then SetEstado(t, c.value, Disponible) else t
  }

  lemma ReleaseCopyKeepsWellFormed(t: Tables, c: Option<Id>)
    requires WellFormed(t)
    ensures WellFormed(ReleaseCopy(t, c))
    ensures OnlyEstadosChanged(t.copias, ReleaseCopy(t, c).copias)
  {
    if c.Some? && c.value in t.copias {
      SetEstadoKeepsWellFormed(t, c.value, Disponible);
    }
  }

  /** rechazar_solicitud: raises only when the request does not exist. */
  method RechazarSolicitud(s: Session, id: Id) returns (r: Option<Error>)
    requires s.Valid()
    modifies s
    ensures s.Valid()
    ensures r.Some? <==> id !in old(s.movimientos)
    ensures r.Some? ==> r.value == MovimientoNotFound && s.State() == old(s.State())
    ensures r.None? ==> s.State() == RechazarEffect(old(s.State()), id)
  {
    if id !in s.movimientos {
      return Some(MovimientoNotFound);
    }
    ghost var before := s.State();
    var mv := s.movimientos[id];
    if mv.idCopia.Some? {
      var c := mv.idCopia.value;
      if c in s.copias {
        s.copias := s.copias[c := s.copias[c].(estado := Disponible)];
      }
    }
    s.movimientos := s.movimientos - {id};
    assert s.State() == RechazarEffect(before, id);
    RechazarKeepsWellFormed(before, id);
    r := None;
  }

  lemma RechazarKeepsWellFormed(t: Tables, id: Id)
    requires WellFormed(t) && id in t.movimientos
    ensures WellFormed(RechazarEffect(t, id))
  {
    var freed := ReleaseCopy(t, t.movimientos[id].idCopia);
    ReleaseCopyKeepsWellFormed(t, t.movimientos[id].idCopia);
    assert freed.movimientos == t.movimientos;
    DropMovimientoKeepsWellFormed(freed, id);
  }

  /** Rejection removes the request, frees its copy whatever that copy's status was, and touches nothing else. */
  lemma RechazarRemovesRequest(t: Tables, id: Id)
    requires id in t.movimientos
    ensures RechazarEffect(t, id).movimientos.Keys == t.movimientos.Keys - {id}
    ensures forall m :: m in t.movimientos && m != id ==> RechazarEffect(t, id).movimientos[m] == t.movimientos[m]
    ensures PendingRequests(RechazarEffect(t, id).movimientos) == PendingRequests(t.movimientos) - {id}
    ensures var mv := t.movimientos[id];
      mv.idCopia.Some? && mv.idCopia.value in t.copias ==> RechazarEffect(t, id).copias[mv.idCopia.value].estado == Disponible
    ensures var mv := t.movimientos[id];
      forall d :: d in t.copias && Some(d) != mv.idCopia ==> RechazarEffect(t, id).copias[d] == t.copias[d]
    ensures RechazarEffect(t, id).copias.Keys == t.copias.Keys
    ensures RechazarEffect(t, id).prestamos == t.prestamos && RechazarEffect(t, id).reservas == t.reservas
  {
    var after := RechazarEffect(t, id);
    assert PendingRequests(after.movimientos) == PendingRequests(t.movimientos) - {id};
  }

  // ---------------------------------------------------------------- loan listings

  /** The loans not yet returned, newest loan date first. */
  method GetPrestamosActivos(s: Session) returns (ids: seq<Id>)
    ensures forall p :: p in ids <==> p in s.prestamos && s.prestamos[p].estado == Activo
    ensures Query.NoDuplicates(ids)
    ensures forall i, j :: 0 <= i < j < |ids| ==> s.prestamos[ids[i]].fechaPrestamo >= s.prestamos[ids[j]].fechaPrestamo
  {
    ids := Query.SelectDesc(s.prestamos, (p: Prestamo) => p.estado == Activo, (p: Prestamo) => p.fechaPrestamo);
  }

  /** Every loan, newest loan date first. */
  method GetAllPrestamos(s: Session) returns (ids: seq<Id>)
    ensures forall p :: p in ids <==> p in s.prestamos
    ensures Query.NoDuplicates(ids)
    ensures forall i, j :: 0 <= i < j < |ids| ==> s.prestamos[ids[i]].fechaPrestamo >= s.prestamos[ids[j]].fechaPrestamo
  {
    ids := Query.SelectDesc(s.prestamos, (p: Prestamo) => true, (p: Prestamo) => p.fechaPrestamo);
  }
}
