/**
 * Circulation consistency: the copy statuses agree with the open requests and loans. A pending
 * request holds its copy in status reservado, an active loan holds its copy in status prestado,
 * and no copy is held twice. Every engine operation keeps this under the gate its screen
 * imposes, except the student's cancellation, which can release a copy a request still holds.
 */
module Circulation {
  import opened Wrappers
  import opened Models
  import StudentController
  import PrestamoController

  /** Pending request `m` holds an existing copy that is reservado. */
  predicate RequestHolds(t: Tables, m: Id)
    requires m in t.movimientos
  {
    var c := t.movimientos[m].idCopia;
    c.Some? && c.value in t.copias && t.copias[c.value].estado == Reservado
  }

  /** Active loan `p` holds an existing copy that is prestado. */
  predicate LoanHolds(t: Tables, p: Id)
    requires p in t.prestamos
  {
    LoanLinked(t.copias, t.prestamos[p]) && t.copias[t.prestamos[p].idCopia.value].estado == Prestado
  }

  ghost predicate RequestsHold(t: Tables)
  {
    forall m :: m in PendingRequests(t.movimientos) ==> RequestHolds(t, m)
  }

  ghost predicate RequestsDistinct(t: Tables)
  {
    forall a, b :: a in PendingRequests(t.movimientos) && b in PendingRequests(t.movimientos) && a != b ==>
      t.movimientos[a].idCopia != t.movimientos[b].idCopia
  }

  ghost predicate LoansHold(t: Tables)
  {
    forall p :: p in ActiveLoans(t.prestamos) ==> LoanHolds(t, p)
  }

  ghost predicate LoansDistinct(t: Tables)
  {
    forall a, b :: a in ActiveLoans(t.prestamos) && b in ActiveLoans(t.prestamos) && a != b ==>
      t.prestamos[a].idCopia != t.prestamos[b].idCopia
  }

  ghost predicate Consistent(t: Tables)
  {
    RequestsHold(t) && RequestsDistinct(t) && LoansHold(t) && LoansDistinct(t)
  }

  /** A freshly seeded database, with no request and no loan, is consistent whatever the copy statuses. */
  lemma InitiallyConsistent(t: Tables)
    requires t.movimientos == map[] && t.prestamos == map[]
    ensures Consistent(t)
  {
    assert PendingRequests(t.movimientos) == {};
    assert ActiveLoans(t.prestamos) == {};
  }

  /** In a consistent database an available copy is free: no pending request and no active loan holds it. */
  lemma AvailableCopyIsFree(t: Tables, c: Id)
    requires Consistent(t) && c in t.copias && t.copias[c].estado == Disponible
    ensures forall m :: m in PendingRequests(t.movimientos) ==> t.movimientos[m].idCopia != Some(c)
    ensures forall p :: p in ActiveLoans(t.prestamos) ==> t.prestamos[p].idCopia != Some(c)
  {
    forall m | m in PendingRequests(t.movimientos)
      ensures t.movimientos[m].idCopia != Some(c)
    {
      assert RequestHolds(t, m);
    }
    forall p | p in ActiveLoans(t.prestamos)
      ensures t.prestamos[p].idCopia != Some(c)
    {
      assert LoanHolds(t, p);
    }
  }

  // ---------------------------------------------------------------- the loan cycle

  /** A request takes an available copy, so the new hold clashes with none. */
  lemma RequestLoanKeepsConsistent(t: Tables, idUsuario: Id, dias: int, today: int, now: int, c: Id)
    requires Consistent(t) && KeysBelow(t.movimientos, t.nextMovimiento)
    requires c in t.copias && t.copias[c].estado == Disponible
    ensures Consistent(StudentController.RequestLoanEffect(t, idUsuario, dias, today, now, c))
  {
    var after := StudentController.RequestLoanEffect(t, idUsuario, dias, today, now, c);
    var n := t.nextMovimiento;
    AvailableCopyIsFree(t, c);
    assert PendingRequests(after.movimientos) == PendingRequests(t.movimientos) + {n};
    forall m | m in PendingRequests(after.movimientos)
      ensures RequestHolds(after, m)
    {
      if m != n {
        assert RequestHolds(t, m);
      }
    }
    forall p | p in ActiveLoans(after.prestamos)
      ensures LoanHolds(after, p)
    {
      assert LoanHolds(t, p);
    }
  }

  /** Approving a pending request moves its hold from the request to a new loan on the same copy. */
  lemma AprobarKeepsConsistent(t: Tables, id: Id, today: int)
    requires Consistent(t) && KeysBelow(t.prestamos, t.nextPrestamo)
    requires PrestamoController.AprobarCheck(t, id).None? && id in PendingRequests(t.movimientos)
    ensures Consistent(PrestamoController.AprobarEffect(t, id, today))
  {
    var after := PrestamoController.AprobarEffect(t, id, today);
    var c := t.movimientos[id].idCopia.value;
    var n := t.nextPrestamo;
    assert RequestHolds(t, id);
    assert PendingRequests(after.movimientos) == PendingRequests(t.movimientos) - {id};
    assert ActiveLoans(after.prestamos) == ActiveLoans(t.prestamos) + {n};
    forall m | m in PendingRequests(after.movimientos)
      ensures RequestHolds(after, m)
    {
      assert RequestHolds(t, m);
    }
    forall p | p in ActiveLoans(t.prestamos)
      ensures t.prestamos[p].idCopia != Some(c) && LoanHolds(after, p)
    {
      assert LoanHolds(t, p);
    }
    assert LoanHolds(after, n);
  }

  /** Rejecting a pending request releases the copy only that request held. */
  lemma RechazarKeepsConsistent(t: Tables, id: Id)
    requires Consistent(t) && id in PendingRequests(t.movimientos)
    ensures Consistent(PrestamoController.RechazarEffect(t, id))
  {
    var after := PrestamoController.RechazarEffect(t, id);
    var c := t.movimientos[id].idCopia.value;
    assert RequestHolds(t, id);
    assert after.copias == t.copias[c := t.copias[c].(estado := Disponible)];
    assert PendingRequests(after.movimientos) == PendingRequests(t.movimientos) - {id};
    forall m | m in PendingRequests(after.movimientos)
      ensures RequestHolds(after, m)
    {
      assert RequestHolds(t, m);
    }
    forall p | p in ActiveLoans(after.prestamos)
      ensures LoanHolds(after, p)
    {
      assert LoanHolds(t, p);
    }
  }

  /** Returning an active loan releases the copy only that loan held. */
  lemma ReturnLoanKeepsConsistent(t: Tables, id: Id, today: int, now: int)
    requires Consistent(t) && id in ActiveLoans(t.prestamos)
    ensures LoanLinked(t.copias, t.prestamos[id])
    ensures Consistent(StudentController.ReturnLoanEffect(t, id, today, now))
  {
    assert LoanHolds(t, id);
    var after := StudentController.ReturnLoanEffect(t, id, today, now);
    var c := t.prestamos[id].idCopia.value;
    StudentController.ReturnLoanFreesCopy(t, id, today, now);
    StudentController.ReturnLoanEndsLoan(t, id, today, now);
    StudentController.ReturnKeepsCopiesAndReservations(t, id, today, now);
    assert after.movimientos == t.movimientos;
    forall m | m in PendingRequests(after.movimientos)
      ensures RequestHolds(after, m)
    {
      assert RequestHolds(t, m);
    }
    forall p | p in ActiveLoans(after.prestamos)
      ensures LoanHolds(after, p)
    {
      assert LoanHolds(t, p);
      assert after.prestamos[p] == t.prestamos[p];
    }
  }

  // ---------------------------------------------------------------- reservations

  /** A new reservation writes no copy, request or loan. */
  lemma CreateReservationKeepsConsistent(t: Tables, c: Id, idUsuario: Id, now: int)
    requires Consistent(t)
    ensures Consistent(StudentController.CreateReservationEffect(t, c, idUsuario, now))
  {
    var after := StudentController.CreateReservationEffect(t, c, idUsuario, now);
    assert after.copias == t.copias && after.movimientos == t.movimientos && after.prestamos == t.prestamos;
  }

  /** cancelar_reserva and completar_reserva write no copy. */
  lemma CloseReservaKeepsConsistent(t: Tables, id: Id, e: EstadoReserva)
    requires Consistent(t) && id in t.reservas
    ensures Consistent(SetReservaEstado(t, id, e))
  {
    var after := SetReservaEstado(t, id, e);
    assert after.copias == t.copias && after.movimientos == t.movimientos && after.prestamos == t.prestamos;
  }

  /** Handing a copy to its first waiter is safe once no loan holds the copy, as after its return. */
  lemma LiberarKeepsConsistent(t: Tables, c: Id)
    requires Consistent(t) && c in t.copias && t.copias[c].estado != Prestado
    ensures Consistent(SetEstado(t, c, Reservado))
  {
    var after := SetEstado(t, c, Reservado);
    forall m | m in PendingRequests(after.movimientos)
      ensures RequestHolds(after, m)
    {
      assert RequestHolds(t, m);
    }
    forall p | p in ActiveLoans(after.prestamos)
      ensures LoanHolds(after, p)
    {
      assert LoanHolds(t, p);
    }
  }

  // ---------------------------------------------------------------- the student's cancellation

  /** Some pending request holds copy `c`. */
  predicate HeldByRequest(movimientos: map<Id, Movimiento>, c: Id)
  {
    exists m :: m in movimientos && movimientos[m].estado == PendingEstado && movimientos[m].idCopia == Some(c)
  }

  /**
   * The cancellation as evidently intended: the reservation is cancelled, and its copy goes
   * back to available only if it is reservado and no pending loan request holds it.
   */
  function CancelReservationCorrected(t: Tables, id: Id): (r: Tables)
    requires id in t.reservas && ReservationLinked(t.copias, t.reservas[id])
    ensures r.reservas == SetReservaEstado(t, id, Cancelada).reservas
    ensures r.movimientos == t.movimientos && r.prestamos == t.prestamos
    ensures OnlyEstadosChanged(t.copias, r.copias)
    ensures var c := t.reservas[id].idCopia.value;
      r.copias[c].estado == (if t.copias[c].estado == Reservado && !HeldByRequest(t.movimientos, c) then Disponible else t.copias[c].estado)
  {
    var c := t.reservas[id].idCopia.value;
    var cancelled := SetReservaEstado(t, id, Cancelada);
    if t.copias[c].estado == Reservado && !HeldByRequest(t.movimientos, c) then SetEstado(cancelled, c, Disponible) else cancelled
  }

  /** The corrected cancellation keeps the database consistent. */
  lemma CancelReservationCorrectedKeepsConsistent(t: Tables, id: Id)
    requires Consistent(t) && id in t.reservas && ReservationLinked(t.copias, t.reservas[id])
    ensures Consistent(CancelReservationCorrected(t, id))
  {
    var after := CancelReservationCorrected(t, id);
    var c := t.reservas[id].idCopia.value;
    forall m | m in PendingRequests(after.movimientos)
      ensures RequestHolds(after, m)
    {
      assert RequestHolds(t, m);
      if t.movimientos[m].idCopia == Some(c) {
        assert HeldByRequest(t.movimientos, c);
      }
    }
    forall p | p in ActiveLoans(after.prestamos)
      ensures LoanHolds(after, p)
    {
      assert LoanHolds(t, p);
    }
  }

  /** On a copy no request holds, the corrected cancellation is the cancellation as written. */
  lemma CancelReservationCorrectedAgrees(t: Tables, id: Id)
    requires id in t.reservas && ReservationLinked(t.copias, t.reservas[id])
    requires !HeldByRequest(t.movimientos, t.reservas[id].idCopia.value)
    ensures CancelReservationCorrected(t, id) == StudentController.CancelReservationEffect(t, id)
  {
  }

  /**
   * A database the engine can reach: user 1 reserved copy 1 while user 2 had it on loan (loan 1);
   * user 2 returned it on time, the copy became available, and user 2 then requested it again, so
   * request 1 holds it.
   */
  function Scenario(): (t: Tables)
    ensures WellFormed(t) && Consistent(t)
    ensures 1 in t.reservas && ReservationLinked(t.copias, t.reservas[1])
    ensures HeldByRequest(t.movimientos, 1)
  {
    var t := Tables(
      map[1 := Material("Cien anios de soledad", None, None, "libro", None, None)],
      map[1 := Copia(1, Reservado, "C-001", None, None, "impreso", 0)],
      map[1 := Movimiento(Some(1), Some(2), PendingEstado, 20, 27)],
      map[1 := Prestamo(Some(1), Some(2), 0, 14, Some(12), Devuelto, 0)],
      map[1 := Reserva(Some(1), Some(1), 10, Activa)],
      map[], map[], map[], 2, 2, 2, 1, 1);
    assert PendingRequests(t.movimientos) == {1};
    assert ActiveLoans(t.prestamos) == {};
    assert t.movimientos[1].idCopia == Some(1);
    t
  }

  /**
   * The student's cancellation as written breaks consistency: user 1 cancels, copy 1 becomes
   * available although request 1 still holds it; user 3 can then request the same copy, and
   * approving both requests lends one copy twice.
   */
  lemma CancelReservationReleasesHeldCopy()
    ensures Consistent(Scenario()) && !Consistent(StudentController.CancelReservationEffect(Scenario(), 1))
    ensures var cancelled := StudentController.CancelReservationEffect(Scenario(), 1);
      && cancelled.copias[1].estado == Disponible
      && 1 in PendingRequests(cancelled.movimientos)
      && StudentController.RequestLoanCheck(cancelled, 1, 3).None?
    ensures var requested := StudentController.RequestLoanEffect(StudentController.CancelReservationEffect(Scenario(), 1), 3, 7, 21, 30, 1);
      && PrestamoController.AprobarCheck(requested, 1).None?
      && PrestamoController.AprobarCheck(requested, 2).None?
      && var lent := PrestamoController.AprobarEffect(PrestamoController.AprobarEffect(requested, 1, 22), 2, 22);
      && lent.prestamos[2].idCopia == Some(1) && lent.prestamos[3].idCopia == Some(1)
      && lent.prestamos[2].estado == Activo && lent.prestamos[3].estado == Activo
  {
    var t := Scenario();
    var cancelled := StudentController.CancelReservationEffect(t, 1);
    assert cancelled.copias[1].estado == Disponible;
    assert 1 in PendingRequests(cancelled.movimientos);
    assert !RequestHolds(cancelled, 1);
    assert StudentController.IsCopyOf(cancelled.copias, 1, 1, Disponible);
    assert 1 in StudentController.CopiesOf(cancelled.copias, 1, Disponible);
    assert StudentController.PendingFines(cancelled.multas, 3) == {};
  }

  /** The corrected cancellation keeps copy 1 reserved for request 1 in the same scenario. */
  lemma CancelReservationCorrectedKeepsHold()
    ensures CancelReservationCorrected(Scenario(), 1).copias[1].estado == Reservado
    ensures Consistent(CancelReservationCorrected(Scenario(), 1))
  {
    CancelReservationCorrectedKeepsConsistent(Scenario(), 1);
  }
}
