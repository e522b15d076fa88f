/**
 * The student side of the circulation engine: the fine table, the pending-fine gate, the
 * catalog counts, loan requests, reservations, returns and the student's own cancellation.
 * Each state change is a guard function (which error, if any), an effect function (the new
 * tables on success) and a method that performs the guards and field updates on the session.
 */
module StudentController {
  import opened Wrappers
  import opened Models
  import opened Store
  import Query

  // ---------------------------------------------------------------- fines

  /** Amount of the fine for a return `diasAtraso` days late. */
  function CalcularMulta(diasAtraso: int): int
  {
    if diasAtraso == 1 then 1000
    else if 2 <= diasAtraso <= 7 then 2500
    else 2500 + (diasAtraso - 7) * 100
  }

  /** The same schedule day by day: the first day costs 1000, the second brings it to 2500, days three to seven add nothing, every later day adds 100. */
  function DailySchedule(dias: nat): int
    requires dias >= 1
  {
    if dias == 1 then 1000
    else DailySchedule(dias - 1) + (if dias == 2 then 1500 else if dias <= 7 then 0 else 100)
  }

  lemma {:induction false} CalcularMultaFollowsSchedule(dias: nat)
    requires dias >= 1
    ensures CalcularMulta(dias) == DailySchedule(dias)
  {
    if dias > 1 {
      CalcularMultaFollowsSchedule(dias - 1);
    }
  }

  lemma CalcularMultaTable()
    ensures CalcularMulta(1) == 1000 && CalcularMulta(2) == 2500 && CalcularMulta(7) == 2500
    ensures CalcularMulta(8) == 2600 && CalcularMulta(9) == 2700 && CalcularMulta(10) == 2800
  {
  }

  /** A later return never costs less, and any late return costs at least the first-day amount. */
  lemma CalcularMultaMonotone(d1: int, d2: int)
    requires 1 <= d1 <= d2
    ensures 1000 <= CalcularMulta(d1) <= CalcularMulta(d2)
  {
  }

  function PendingFines(multas: map<Id, Multa>, idUsuario: Id): set<Id>
  {
    set f | f in multas && multas[f].idUsuario == idUsuario && multas[f].estadoPago == Pendiente
  }

  /** The pending-fine gate: the query counts the user's unpaid fines and compares the count with 0. */
  function TieneMultasPendientes(multas: map<Id, Multa>, idUsuario: Id): (b: bool)
    ensures b <==> exists f :: f in multas && multas[f].idUsuario == idUsuario && multas[f].estadoPago == Pendiente
  {
    var fs := PendingFines(multas, idUsuario);
    assert forall f :: f in fs <==> f in multas && multas[f].idUsuario == idUsuario && multas[f].estadoPago == Pendiente;
    |fs| > 0
  }

  // ---------------------------------------------------------------- catalog

  function CopiesOf(copias: map<Id, Copia>, idMaterial: Id, e: Estado): set<Id>
  {
    set c | c in copias && copias[c].idMaterial == idMaterial && copias[c].estado == e
  }

  predicate IsCopyOf(copias: map<Id, Copia>, c: Id, idMaterial: Id, e: Estado)
  {
    c in copias && copias[c].idMaterial == idMaterial && copias[c].estado == e
  }

  function CountAvailableCopies(copias: map<Id, Copia>, idMaterial: Id): (n: nat)
    ensures n > 0 <==> exists c :: IsCopyOf(copias, c, idMaterial, Disponible)
  {
    var s := CopiesOf(copias, idMaterial, Disponible);
    assert forall c :: c in s <==> IsCopyOf(copias, c, idMaterial, Disponible);
    |s|
  }

  function CountLoanedCopies(copias: map<Id, Copia>, idMaterial: Id): (n: nat)
    ensures n > 0 <==> exists c :: IsCopyOf(copias, c, idMaterial, Prestado)
  {
    var s := CopiesOf(copias, idMaterial, Prestado);
    assert forall c :: c in s <==> IsCopyOf(copias, c, idMaterial, Prestado);
    |s|
  }

  datatype Availability = Availability(idMaterial: Id, copiasDisponibles: nat)

  datatype Holdings = Holdings(idMaterial: Id, copiasDisponibles: nat, copiasPrestadas: nat)

  /** Every material with at least one available copy, once each, with its count. */
  method GetAvailableMaterials(s: Session) returns (rows: seq<Availability>)
    ensures forall i :: 0 <= i < |rows| ==>
      rows[i].idMaterial in s.materiales && rows[i].copiasDisponibles == CountAvailableCopies(s.copias, rows[i].idMaterial) > 0
    ensures forall m :: m in s.materiales && CountAvailableCopies(s.copias, m) > 0 ==>
      exists i :: 0 <= i < |rows| && rows[i].idMaterial == m
    ensures forall i, j :: 0 <= i < j < |rows| ==> rows[i].idMaterial != rows[j].idMaterial
  {
    var rest := s.materiales.Keys;
    rows := [];
    while rest != {}
      invariant rest <= s.materiales.Keys
      invariant forall i :: 0 <= i < |rows| ==>
        rows[i].idMaterial in s.materiales && rows[i].idMaterial !in rest
        && rows[i].copiasDisponibles == CountAvailableCopies(s.copias, rows[i].idMaterial) > 0
      invariant forall m :: m in s.materiales && m !in rest && CountAvailableCopies(s.copias, m) > 0 ==>
        exists i :: 0 <= i < |rows| && rows[i].idMaterial == m
      invariant forall i, j :: 0 <= i < j < |rows| ==> rows[i].idMaterial != rows[j].idMaterial
      decreases rest
    {
      var m :| m in rest;
      var n := CountAvailableCopies(s.copias, m);
      if n > 0 {
        ghost var prev := rows;
        rows := rows + [Availability(m, n)];
        assert forall i :: 0 <= i < |prev| ==> rows[i] == prev[i];
        assert rows[|rows| - 1].idMaterial == m;
      }
      rest := rest - {m};
    }
  }

  /** Every material with an available or a loaned copy, once each, with both counts. */
  method GetAllMaterialsWithCopies(s: Session) returns (rows: seq<Holdings>)
    ensures forall i :: 0 <= i < |rows| ==>
      && rows[i].idMaterial in s.materiales
      && rows[i].copiasDisponibles == CountAvailableCopies(s.copias, rows[i].idMaterial)
      && rows[i].copiasPrestadas == CountLoanedCopies(s.copias, rows[i].idMaterial)
      && (rows[i].copiasDisponibles > 0 || rows[i].copiasPrestadas > 0)
    ensures forall m :: m in s.materiales && (CountAvailableCopies(s.copias, m) > 0 || CountLoanedCopies(s.copias, m) > 0) ==>
      exists i :: 0 <= i < |rows| && rows[i].idMaterial == m
    ensures forall i, j :: 0 <= i < j < |rows| ==> rows[i].idMaterial != rows[j].idMaterial
  {
    var rest := s.materiales.Keys;
    rows := [];
    while rest != {}
      invariant rest <= s.materiales.Keys
      invariant forall i :: 0 <= i < |rows| ==>
        && rows[i].idMaterial in s.materiales && rows[i].idMaterial !in rest
        && rows[i].copiasDisponibles == CountAvailableCopies(s.copias, rows[i].idMaterial)
        && rows[i].copiasPrestadas == CountLoanedCopies(s.copias, rows[i].idMaterial)
        && (rows[i].copiasDisponibles > 0 || rows[i].copiasPrestadas > 0)
      invariant forall m :: m in s.materiales && m !in rest && (CountAvailableCopies(s.copias, m) > 0 || CountLoanedCopies(s.copias, m) > 0) ==>
        exists i :: 0 <= i < |rows| && rows[i].idMaterial == m
      invariant forall i, j :: 0 <= i < j < |rows| ==> rows[i].idMaterial != rows[j].idMaterial
      decreases rest
    {
      var m :| m in rest;
      var disponibles := CountAvailableCopies(s.copias, m);
      var prestadas := CountLoanedCopies(s.copias, m);
      if disponibles > 0 || prestadas > 0 {
        ghost var prev := rows;
        rows := rows + [Holdings(m, disponibles, prestadas)];
        assert forall i :: 0 <= i < |prev| ==> rows[i] == prev[i];
        assert rows[|rows| - 1].idMaterial == m;
      }
      rest := rest - {m};
    }
  }

  // ---------------------------------------------------------------- loan requests

  /** The guards of request_loan, in the order they run. */
  function RequestLoanCheck(t: Tables, idMaterial: Id, idUsuario: Id): Option<Error>
  {
    if TieneMultasPendientes(t.multas, idUsuario) then Some(FineBlocked)
    else if CopiesOf(t.copias, idMaterial, Disponible) == {} then Some(NoAvailableCopy)
    else None
  }

  /** A successful request on available copy `c`: the copy becomes reserved and a pending request is inserted. */
  function RequestLoanEffect(t: Tables, idUsuario: Id, dias: int, today: int, now: int, c: Id): Tables
    requires c in t.copias
  {
    SetEstado(t, c, Reservado).(
      movimientos := t.movimientos[t.nextMovimiento := Movimiento(Some(c), Some(idUsuario), PendingEstado, now, today + dias)],
      nextMovimiento := t.nextMovimiento + 1)
  }

  /** request_loan: `today` is the current date, `now` the insertion timestamp; `dias` is not checked here. */
  method RequestLoan(s: Session, idMaterial: Id, idUsuario: Id, dias: int, today: int, now: int) returns (r: Result<Id, Error>)
    requires s.Valid()
    modifies s
    ensures s.Valid()
    ensures r.Failure? <==> RequestLoanCheck(old(s.State()), idMaterial, idUsuario).Some?
    ensures r.Failure? ==> r.error == RequestLoanCheck(old(s.State()), idMaterial, idUsuario).value && s.State() == old(s.State())
    ensures r.Success? ==> r.value == old(s.nextMovimiento) && exists c ::
      IsCopyOf(old(s.copias), c, idMaterial, Disponible) && s.State() == RequestLoanEffect(old(s.State()), idUsuario, dias, today, now, c)
  {
    if TieneMultasPendientes(s.multas, idUsuario) {
      return Failure(FineBlocked);
    }
    var candidates := CopiesOf(s.copias, idMaterial, Disponible);
    if candidates == {} {
      return Failure(NoAvailableCopy);
    }
    var c :| c in candidates;
    ghost var before := s.State();
    var id := s.nextMovimiento;
    s.copias := s.copias[c := s.copias[c].(estado := Reservado)];
    s.movimientos := s.movimientos[id := Movimiento(Some(c), Some(idUsuario), PendingEstado, now, today + dias)];
    s.nextMovimiento := id + 1;
    assert s.State() == RequestLoanEffect(before, idUsuario, dias, today, now, c);
    RequestLoanKeepsWellFormed(before, idUsuario, dias, today, now, c);
    assert IsCopyOf(before.copias, c, idMaterial, Disponible);
    r := Success(id);
  }

  lemma RequestLoanKeepsWellFormed(t: Tables, idUsuario: Id, dias: int, today: int, now: int, c: Id)
    requires WellFormed(t) && c in t.copias
    ensures WellFormed(RequestLoanEffect(t, idUsuario, dias, today, now, c))
  {
    SetEstadoKeepsWellFormed(t, c, Reservado);
  }

  /** A request takes exactly one available copy of its material and no copy of any other material. */
  lemma RequestLoanTakesOneCopy(t: Tables, idMaterial: Id, idUsuario: Id, dias: int, today: int, now: int, c: Id, m: Id)
    requires IsCopyOf(t.copias, c, idMaterial, Disponible)
    ensures var after := RequestLoanEffect(t, idUsuario, dias, today, now, c);
      CountAvailableCopies(after.copias, m) ==
        if m == idMaterial then CountAvailableCopies(t.copias, m) - 1 else CountAvailableCopies(t.copias, m)
  {
    var after := RequestLoanEffect(t, idUsuario, dias, today, now, c);
    if m == idMaterial {
      assert CopiesOf(after.copias, m, Disponible) == CopiesOf(t.copias, m, Disponible) - {c};
    } else {
      assert CopiesOf(after.copias, m, Disponible) == CopiesOf(t.copias, m, Disponible);
    }
  }

  /** A request adds exactly one pending request, for that copy and user, due `dias` days from today. */
  lemma RequestLoanAddsPendingRequest(t: Tables, idUsuario: Id, dias: int, today: int, now: int, c: Id)
    requires WellFormed(t) && c in t.copias
    ensures var after := RequestLoanEffect(t, idUsuario, dias, today, now, c);
      && t.nextMovimiento !in t.movimientos
      && PendingRequests(after.movimientos) == PendingRequests(t.movimientos) + {t.nextMovimiento}
      && after.movimientos[t.nextMovimiento].idCopia == Some(c)
      && after.movimientos[t.nextMovimiento].idUsuario == Some(idUsuario)
      && after.movimientos[t.nextMovimiento].fechaDevolucion == today + dias
  {
    var after := RequestLoanEffect(t, idUsuario, dias, today, now, c);
    assert PendingRequests(after.movimientos) == PendingRequests(t.movimientos) + {t.nextMovimiento};
  }

  /** With no available copy the request fails, whatever else holds. */
  lemma NoAvailableCopyFailsRequest(t: Tables, idMaterial: Id, idUsuario: Id)
    requires CountAvailableCopies(t.copias, idMaterial) == 0
    ensures RequestLoanCheck(t, idMaterial, idUsuario).Some?
  {
  }

  // ---------------------------------------------------------------- reservations

  predicate HasActiveReservation(reservas: map<Id, Reserva>, c: Id, idUsuario: Id)
  {
    exists r :: r in reservas && reservas[r].idCopia == Some(c) && reservas[r].idUsuario == Some(idUsuario) && reservas[r].estado == Activa
  }

  /** The guards of create_reservation that come before a copy is chosen. */
  function CreateReservationCheck(t: Tables, idMaterial: Id, idUsuario: Id): Option<Error>
  {
    if TieneMultasPendientes(t.multas, idUsuario) then Some(FineBlocked)
    else if CopiesOf(t.copias, idMaterial, Prestado) == {} then Some(NoLoanedCopy)
    else None
  }

  /** A new active reservation by the user on loaned copy `c`, stamped `now`. */
  function CreateReservationEffect(t: Tables, c: Id, idUsuario: Id, now: int): Tables
  {
    t.(reservas := t.reservas[t.nextReserva := Reserva(Some(c), Some(idUsuario), now, Activa)],
       nextReserva := t.nextReserva + 1)
  }

  /**
   * create_reservation. The copy is some loaned copy of the material, so whether the duplicate
   * check fires depends on which one the query returns.
   */
  method CreateReservation(s: Session, idMaterial: Id, idUsuario: Id, now: int) returns (r: Result<Id, Error>)
    requires s.Valid()
    modifies s
    ensures s.Valid()
    ensures r.Failure? ==> s.State() == old(s.State())
    ensures CreateReservationCheck(old(s.State()), idMaterial, idUsuario).Some? ==>
      r == Failure(CreateReservationCheck(old(s.State()), idMaterial, idUsuario).value)
    ensures CreateReservationCheck(old(s.State()), idMaterial, idUsuario).None? && r.Failure? ==>
      r.error == DuplicateReservation &&
      exists c :: IsCopyOf(old(s.copias), c, idMaterial, Prestado) && HasActiveReservation(old(s.reservas), c, idUsuario)
    ensures r.Success? ==> CreateReservationCheck(old(s.State()), idMaterial, idUsuario).None?
    ensures r.Success? ==> r.value == old(s.nextReserva) && exists c ::
        && IsCopyOf(old(s.copias), c, idMaterial, Prestado)
        && !HasActiveReservation(old(s.reservas), c, idUsuario)
        && s.State() == CreateReservationEffect(old(s.State()), c, idUsuario, now)
  {
    if TieneMultasPendientes(s.multas, idUsuario) {
      return Failure(FineBlocked);
    }
    var candidates := CopiesOf(s.copias, idMaterial, Prestado);
    if candidates == {} {
      return Failure(NoLoanedCopy);
    }
    var c :| c in candidates;
    assert IsCopyOf(s.copias, c, idMaterial, Prestado);
    if HasActiveReservation(s.reservas, c, idUsuario) {
      return Failure(DuplicateReservation);
    }
    ghost var before := s.State();
    var id := s.nextReserva;
    s.reservas := s.reservas[id := Reserva(Some(c), Some(idUsuario), now, Activa)];
    s.nextReserva := id + 1;
    assert s.State() == CreateReservationEffect(before, c, idUsuario, now);
    CreateReservationKeepsWellFormed(before, c, idUsuario, now);
    r := Success(id);
  }

  lemma CreateReservationKeepsWellFormed(t: Tables, c: Id, idUsuario: Id, now: int)
    requires WellFormed(t) && c in t.copias
    ensures WellFormed(CreateReservationEffect(t, c, idUsuario, now))
  {
  }

  /** A new reservation joins the waitlist of its copy, changes no copy, and keeps one active reservation per pair. */
  lemma CreateReservationJoinsWaitlist(t: Tables, c: Id, idUsuario: Id, now: int)
    requires WellFormed(t) && OneActivePerPair(t.reservas) && !HasActiveReservation(t.reservas, c, idUsuario)
    ensures var after := CreateReservationEffect(t, c, idUsuario, now);
      && t.nextReserva !in t.reservas
      && Waiters(after.reservas, c) == Waiters(t.reservas, c) + {t.nextReserva}
      && (forall d :: d != c ==> Waiters(after.reservas, d) == Waiters(t.reservas, d))
      && after.copias == t.copias
      && OneActivePerPair(after.reservas)
  {
    var after := CreateReservationEffect(t, c, idUsuario, now);
    assert Waiters(after.reservas, c) == Waiters(t.reservas, c) + {t.nextReserva};
    forall d | d != c
      ensures Waiters(after.reservas, d) == Waiters(t.reservas, d)
    {
    }
  }

  /** The student's cancellation: the reservation is cancelled and its copy, if reserved, becomes available. */
  function CancelReservationEffect(t: Tables, id: Id): Tables
    requires id in t.reservas && ReservationLinked(t.copias, t.reservas[id])
  {
    var c := t.reservas[id].idCopia.value;
    var cancelled := SetReservaEstado(t, id, Cancelada);
    if t.copias[c].estado == Reservado then SetEstado(cancelled, c, Disponible) else cancelled
  }

  /** cancel_reservation: whoever the copy is reserved for, a reserved copy goes back to available. */
  method CancelReservation(s: Session, id: Id)
    requires s.Valid() && id in s.reservas
    modifies s
    ensures s.Valid()
    ensures s.State() == CancelReservationEffect(old(s.State()), id)
  {
    ghost var before := s.State();
    s.reservas := s.reservas[id := s.reservas[id].(estado := Cancelada)];
    var c := s.reservas[id].idCopia.value;
    if s.copias[c].estado == Reservado {
      s.copias := s.copias[c := s.copias[c].(estado := Disponible)];
    }
    assert s.State() == CancelReservationEffect(before, id);
    CancelReservationKeepsWellFormed(before, id);
  }

  lemma CancelReservationKeepsWellFormed(t: Tables, id: Id)
    requires WellFormed(t) && id in t.reservas
    ensures WellFormed(CancelReservationEffect(t, id))
  {
    var c := t.reservas[id].idCopia.value;
    var cancelled := SetReservaEstado(t, id, Cancelada);
    CloseReservaLeavesWaitlist(t, id, Cancelada, c);
    if t.copias[c].estado == Reservado {
      SetEstadoKeepsWellFormed(cancelled, c, Disponible);
    }
  }

  /** Only the cancelled reservation and the status of its copy change, and that copy moves only from reserved to available. */
  lemma CancelReservationFreesOnlyReserved(t: Tables, id: Id)
    requires id in t.reservas && ReservationLinked(t.copias, t.reservas[id])
    ensures CancelReservationEffect(t, id).reservas == SetReservaEstado(t, id, Cancelada).reservas
    ensures forall d :: Waiters(CancelReservationEffect(t, id).reservas, d) == Waiters(t.reservas, d) - {id}
    ensures var c := t.reservas[id].idCopia.value;
      CancelReservationEffect(t, id).copias[c].estado == if t.copias[c].estado == Reservado then Disponible else t.copias[c].estado
    ensures var c := t.reservas[id].idCopia.value;
      forall d :: d in t.copias && d != c ==> CancelReservationEffect(t, id).copias[d] == t.copias[d]
    ensures OnlyEstadosChanged(t.copias, CancelReservationEffect(t, id).copias)
  {
    forall d
      ensures Waiters(CancelReservationEffect(t, id).reservas, d) == Waiters(t.reservas, d) - {id}
    {
      CloseReservaLeavesWaitlist(t, id, Cancelada, d);
    }
  }

  // ---------------------------------------------------------------- returns

  /** The loan row written back by return_loan: devuelto, returned `today`, with fine amount `multa`. */
  function CloseLoan(t: Tables, id: Id, today: int, multa: int): Tables
    requires id in t.prestamos
  {
    t.(prestamos := t.prestamos[id := t.prestamos[id].(estado := Devuelto, fechaDevolucionReal := Some(today), multa := multa)])
  }

  lemma CloseLoanKeepsWellFormed(t: Tables, id: Id, today: int, multa: int)
    requires WellFormed(t) && id in t.prestamos
    ensures WellFormed(CloseLoan(t, id, today, multa))
  {
    var after := CloseLoan(t, id, today, multa);
    forall q | q in after.prestamos
      ensures LoanLinked(after.copias, after.prestamos[q])
    {
      assert after.prestamos[q].idCopia == t.prestamos[q].idCopia && after.prestamos[q].idUsuario == t.prestamos[q].idUsuario;
    }
  }

  /** The closed loan leaves the active set; no other loan changes. */
  lemma CloseLoanEndsLoan(t: Tables, id: Id, today: int, multa: int)
    requires id in t.prestamos
    ensures ActiveLoans(CloseLoan(t, id, today, multa).prestamos) == ActiveLoans(t.prestamos) - {id}
  {
    var after := CloseLoan(t, id, today, multa).prestamos;
    assert forall q :: q in ActiveLoans(after) <==> q in ActiveLoans(t.prestamos) && q != id;
  }

  /** A fine row inserted under the next fine key. */
  function AddMulta(t: Tables, f: Multa): Tables
  {
    t.(multas := t.multas[t.nextMulta := f], nextMulta := t.nextMulta + 1)
  }

  lemma AddMultaKeepsWellFormed(t: Tables, f: Multa)
    requires WellFormed(t)
    ensures WellFormed(AddMulta(t, f))
  {
  }

  /** The bookkeeping half of return_loan: the loan is closed today and, when late, fined. */
  function RecordReturn(t: Tables, id: Id, today: int, now: int): Tables
    requires id in t.prestamos && LoanLinked(t.copias, t.prestamos[id])
  {
    var p := t.prestamos[id];
    if today > p.fechaDevolucionPrevista then
      var dias := today - p.fechaDevolucionPrevista;
      var monto := CalcularMulta(dias);
      AddMulta(CloseLoan(t, id, today, monto), NewMulta(id, p.idCopia.value, p.idUsuario.value, dias, monto, now))
    else
      CloseLoan(t, id, today, p.multa)
  }

  /** return_loan on loan `id`: closed, fined when late, and its copy made available. */
  function ReturnLoanEffect(t: Tables, id: Id, today: int, now: int): Tables
    requires id in t.prestamos && LoanLinked(t.copias, t.prestamos[id])
  {
    SetEstado(RecordReturn(t, id, today, now), t.prestamos[id].idCopia.value, Disponible)
  }

  /**
   * return_loan. The loan's status is not checked (the screen offers the action only on active
   * loans). Returns the id of the fine it records, if the return is late.
   */
  method ReturnLoan(s: Session, id: Id, today: int, now: int) returns (fine: Option<Id>)
    requires s.Valid() && id in s.prestamos
    modifies s
    ensures s.Valid()
    ensures s.State() == ReturnLoanEffect(old(s.State()), id, today, now)
    ensures fine.Some? <==> today > old(s.prestamos[id].fechaDevolucionPrevista)
    ensures fine.Some? ==> fine.value == old(s.nextMulta)
  {
    ghost var before := s.State();
    var p := s.prestamos[id];
    var c := p.idCopia.value;
    p := p.(estado := Devuelto, fechaDevolucionReal := Some(today));
    fine := None;
    if p.fechaDevolucionReal.value > p.fechaDevolucionPrevista {
      var dias := p.fechaDevolucionReal.value - p.fechaDevolucionPrevista;
      var monto := CalcularMulta(dias);
      p := p.(multa := monto);
      s.prestamos := s.prestamos[id := p];
      assert s.State() == CloseLoan(before, id, today, monto);
      var f := s.nextMulta;
      s.multas := s.multas[f := NewMulta(id, c, p.idUsuario.value, dias, monto, now)];
      s.nextMulta := f + 1;
      fine := Some(f);
    } else {
      s.prestamos := s.prestamos[id := p];
      assert s.State() == CloseLoan(before, id, today, p.multa);
    }
    assert s.State() == RecordReturn(before, id, today, now);
    s.copias := s.copias[c := s.copias[c].(estado := Disponible)];
    assert s.State() == ReturnLoanEffect(before, id, today, now);
    ReturnLoanKeepsWellFormed(before, id, today, now);
  }

  lemma ReturnLoanKeepsWellFormed(t: Tables, id: Id, today: int, now: int)
    requires WellFormed(t) && id in t.prestamos
    ensures WellFormed(ReturnLoanEffect(t, id, today, now))
  {
    RecordReturnKeepsWellFormed(t, id, today, now);
    SetEstadoKeepsWellFormed(RecordReturn(t, id, today, now), t.prestamos[id].idCopia.value, Disponible);
  }

  lemma RecordReturnKeepsWellFormed(t: Tables, id: Id, today: int, now: int)
    requires WellFormed(t) && id in t.prestamos
    ensures WellFormed(RecordReturn(t, id, today, now))
  {
    var p := t.prestamos[id];
    if today > p.fechaDevolucionPrevista {
      var monto := CalcularMulta(today - p.fechaDevolucionPrevista);
      CloseLoanKeepsWellFormed(t, id, today, monto);
      AddMultaKeepsWellFormed(CloseLoan(t, id, today, monto), NewMulta(id, p.idCopia.value, p.idUsuario.value, today - p.fechaDevolucionPrevista, monto, now));
    } else {
      CloseLoanKeepsWellFormed(t, id, today, p.multa);
    }
  }

  /** The fine rule: a fine of CalcularMulta(days late), pending and unpaid, exactly when the return is after the due date. */
  lemma ReturnLoanFineRule(t: Tables, id: Id, today: int, now: int)
    requires id in t.prestamos && LoanLinked(t.copias, t.prestamos[id]) && KeysBelow(t.multas, t.nextMulta)
    ensures ReturnLoanEffect(t, id, today, now).prestamos[id].estado == Devuelto
    ensures ReturnLoanEffect(t, id, today, now).prestamos[id].fechaDevolucionReal == Some(today)
    ensures today > t.prestamos[id].fechaDevolucionPrevista <==> ReturnLoanEffect(t, id, today, now).multas.Keys != t.multas.Keys
    ensures today > t.prestamos[id].fechaDevolucionPrevista ==>
      var p := t.prestamos[id];
      var dias := today - p.fechaDevolucionPrevista;
      var after := ReturnLoanEffect(t, id, today, now);
      && t.nextMulta !in t.multas
      && after.multas.Keys == t.multas.Keys + {t.nextMulta}
      && after.multas[t.nextMulta] == Multa(id, p.idCopia.value, p.idUsuario.value, dias, CalcularMulta(dias), now, Pendiente, None)
      && after.prestamos[id].multa == CalcularMulta(dias)
    ensures today <= t.prestamos[id].fechaDevolucionPrevista ==>
      && ReturnLoanEffect(t, id, today, now).multas == t.multas
      && ReturnLoanEffect(t, id, today, now).prestamos[id].multa == t.prestamos[id].multa
  {
    var p := t.prestamos[id];
    var after := ReturnLoanEffect(t, id, today, now);
    var recorded := RecordReturn(t, id, today, now);
    assert after.multas == recorded.multas && after.prestamos == recorded.prestamos;
    if today > p.fechaDevolucionPrevista {
      var dias := today - p.fechaDevolucionPrevista;
      var closed := CloseLoan(t, id, today, CalcularMulta(dias));
      assert recorded == AddMulta(closed, NewMulta(id, p.idCopia.value, p.idUsuario.value, dias, CalcularMulta(dias), now));
      assert t.nextMulta !in t.multas;
      assert t.nextMulta in after.multas.Keys;
    } else {
      assert recorded == CloseLoan(t, id, today, p.multa);
    }
  }

  /** Returned on the due date: no fine. One day late: a fine of 1000. Nine days late: 2700. */
  lemma ReturnLoanFineExamples(t: Tables, id: Id, now: int)
    requires id in t.prestamos && LoanLinked(t.copias, t.prestamos[id])
    ensures ReturnLoanEffect(t, id, t.prestamos[id].fechaDevolucionPrevista, now).multas == t.multas
    ensures ReturnLoanEffect(t, id, t.prestamos[id].fechaDevolucionPrevista + 1, now).multas[t.nextMulta].monto == 1000
    ensures ReturnLoanEffect(t, id, t.prestamos[id].fechaDevolucionPrevista + 9, now).multas[t.nextMulta].monto == 2700
  {
  }

  /** A late return blocks the borrower's next loan requests and reservations. */
  lemma LateReturnBlocksBorrower(t: Tables, id: Id, today: int, now: int, idMaterial: Id)
    requires id in t.prestamos && LoanLinked(t.copias, t.prestamos[id]) && today > t.prestamos[id].fechaDevolucionPrevista
    ensures TieneMultasPendientes(ReturnLoanEffect(t, id, today, now).multas, t.prestamos[id].idUsuario.value)
    ensures RequestLoanCheck(ReturnLoanEffect(t, id, today, now), idMaterial, t.prestamos[id].idUsuario.value) == Some(FineBlocked)
    ensures CreateReservationCheck(ReturnLoanEffect(t, id, today, now), idMaterial, t.prestamos[id].idUsuario.value) == Some(FineBlocked)
  {
    var after := ReturnLoanEffect(t, id, today, now);
    assert after.multas[t.nextMulta].estadoPago == Pendiente;
  }

  /** The returned copy becomes available whatever reservations wait for it, and no other copy changes. */
  lemma ReturnLoanFreesCopy(t: Tables, id: Id, today: int, now: int)
    requires id in t.prestamos && LoanLinked(t.copias, t.prestamos[id])
    ensures ReturnLoanEffect(t, id, today, now).copias[t.prestamos[id].idCopia.value].estado == Disponible
    ensures OnlyEstadosChanged(t.copias, ReturnLoanEffect(t, id, today, now).copias)
    ensures forall d :: d in t.copias && d != t.prestamos[id].idCopia.value ==> ReturnLoanEffect(t, id, today, now).copias[d] == t.copias[d]
  {
    var c := t.prestamos[id].idCopia.value;
    ReturnKeepsCopiesAndReservations(t, id, today, now);
    assert ReturnLoanEffect(t, id, today, now).copias == t.copias[c := t.copias[c].(estado := Disponible)];
  }

  /** The returned loan leaves the active set, and the reservations are untouched. */
  lemma ReturnLoanEndsLoan(t: Tables, id: Id, today: int, now: int)
    requires id in t.prestamos && LoanLinked(t.copias, t.prestamos[id])
    ensures ActiveLoans(ReturnLoanEffect(t, id, today, now).prestamos) == ActiveLoans(t.prestamos) - {id}
    ensures ReturnLoanEffect(t, id, today, now).reservas == t.reservas
  {
    var recorded := RecordReturn(t, id, today, now);
    ReturnKeepsCopiesAndReservations(t, id, today, now);
    CloseLoanEndsLoan(t, id, today, recorded.prestamos[id].multa);
    assert ReturnLoanEffect(t, id, today, now).prestamos == CloseLoan(t, id, today, recorded.prestamos[id].multa).prestamos;
  }

  /** The bookkeeping half of a return writes loans and fines only. */
  lemma ReturnKeepsCopiesAndReservations(t: Tables, id: Id, today: int, now: int)
    requires id in t.prestamos && LoanLinked(t.copias, t.prestamos[id])
    ensures RecordReturn(t, id, today, now).copias == t.copias
    ensures RecordReturn(t, id, today, now).reservas == t.reservas
    ensures RecordReturn(t, id, today, now).movimientos == t.movimientos
    ensures RecordReturn(t, id, today, now).prestamos ==
      CloseLoan(t, id, today, RecordReturn(t, id, today, now).prestamos[id].multa).prestamos
  {
    var p := t.prestamos[id];
    if today > p.fechaDevolucionPrevista {
      var dias := today - p.fechaDevolucionPrevista;
      var closed := CloseLoan(t, id, today, CalcularMulta(dias));
      assert RecordReturn(t, id, today, now) == AddMulta(closed, NewMulta(id, p.idCopia.value, p.idUsuario.value, dias, CalcularMulta(dias), now));
    } else {
      assert RecordReturn(t, id, today, now) == CloseLoan(t, id, today, p.multa);
    }
  }

  // ---------------------------------------------------------------- the student's lists

  /** A user's loans, newest loan date first. */
  method GetUserLoans(s: Session, idUsuario: Id) returns (ids: seq<Id>)
    ensures forall p :: p in ids <==> p in s.prestamos && s.prestamos[p].idUsuario == Some(idUsuario)
    ensures Query.NoDuplicates(ids)
    ensures forall i, j :: 0 <= i < j < |ids| ==> s.prestamos[ids[i]].fechaPrestamo >= s.prestamos[ids[j]].fechaPrestamo
  {
    ids := Query.SelectDesc(s.prestamos, (p: Prestamo) => p.idUsuario == Some(idUsuario), (p: Prestamo) => p.fechaPrestamo);
  }

  /** A user's reservations, newest first. */
  method GetUserReservations(s: Session, idUsuario: Id) returns (ids: seq<Id>)
    ensures forall r :: r in ids <==> r in s.reservas && s.reservas[r].idUsuario == Some(idUsuario)
    ensures Query.NoDuplicates(ids)
    ensures forall i, j :: 0 <= i < j < |ids| ==> s.reservas[ids[i]].fechaReserva >= s.reservas[ids[j]].fechaReserva
  {
    ids := Query.SelectDesc(s.reservas, (r: Reserva) => r.idUsuario == Some(idUsuario), (r: Reserva) => r.fechaReserva);
  }
}
