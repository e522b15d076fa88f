/**
 * The librarian's side of reservations: the listings, cancelling and completing a reservation
 * (neither touches a copy) and handing a returned copy to the first user on its waitlist.
 */
module ReservaController {
  import opened Wrappers
  import opened Models
  import opened Store
  import Query
  import StudentController

  /** The active reservations, newest first. */
  method GetReservasActivas(s: Session) returns (ids: seq<Id>)
    ensures forall r :: r in ids <==> r in s.reservas && s.reservas[r].estado == Activa
    ensures Query.NoDuplicates(ids)
    ensures forall i, j :: 0 <= i < j < |ids| ==> s.reservas[ids[i]].fechaReserva >= s.reservas[ids[j]].fechaReserva
  {
    ids := Query.SelectDesc(s.reservas, (r: Reserva) => r.estado == Activa, (r: Reserva) => r.fechaReserva);
  }

  /** Every reservation, newest first. */
  method GetAllReservas(s: Session) returns (ids: seq<Id>)
    ensures forall r :: r in ids <==> r in s.reservas
    ensures Query.NoDuplicates(ids)
    ensures forall i, j :: 0 <= i < j < |ids| ==> s.reservas[ids[i]].fechaReserva >= s.reservas[ids[j]].fechaReserva
  {
    ids := Query.SelectDesc(s.reservas, (r: Reserva) => true, (r: Reserva) => r.fechaReserva);
  }

  // ---------------------------------------------------------------- closing a reservation

  /** cancelar_reserva: the reservation becomes cancelada, whatever its status was; no copy changes. */
  method CancelarReserva(s: Session, id: Id) returns (r: Option<Error>)
    requires s.Valid()
    modifies s
    ensures s.Valid()
    ensures r.Some? <==> id !in old(s.reservas)
    ensures r.Some? ==> r.value == ReservaNotFound && s.State() == old(s.State())
    ensures r.None? ==> s.State() == SetReservaEstado(old(s.State()), id, Cancelada)
  {
    if id !in s.reservas {
      return Some(ReservaNotFound);
    }
    ghost var before := s.State();
    s.reservas := s.reservas[id := s.reservas[id].(estado := Cancelada)];
    assert s.State() == SetReservaEstado(before, id, Cancelada);
    assert ReservationLinked(before.copias, before.reservas[id]);
    CloseReservaLeavesWaitlist(before, id, Cancelada, before.reservas[id].idCopia.value);
    r := None;
  }

  /** completar_reserva: the reservation becomes completada (the user picked the copy up); no copy changes. */
  method CompletarReserva(s: Session, id: Id) returns (r: Option<Error>)
    requires s.Valid()
    modifies s
    ensures s.Valid()
    ensures r.Some? <==> id !in old(s.reservas)
    ensures r.Some? ==> r.value == ReservaNotFound && s.State() == old(s.State())
    ensures r.None? ==> s.State() == SetReservaEstado(old(s.State()), id, Completada)
  {
    if id !in s.reservas {
      return Some(ReservaNotFound);
    }
    ghost var before := s.State();
    s.reservas := s.reservas[id := s.reservas[id].(estado := Completada)];
    assert s.State() == SetReservaEstado(before, id, Completada);
    assert ReservationLinked(before.copias, before.reservas[id]);
    CloseReservaLeavesWaitlist(before, id, Completada, before.reservas[id].idCopia.value);
    r := None;
  }

  /** Closing a reservation, by either path, changes that reservation's status and nothing else in the database. */
  lemma ClosingTouchesNoCopy(t: Tables, id: Id, e: EstadoReserva)
    requires id in t.reservas && e != Activa
    ensures SetReservaEstado(t, id, e).copias == t.copias
    ensures SetReservaEstado(t, id, e).reservas.Keys == t.reservas.Keys
    ensures SetReservaEstado(t, id, e).reservas[id].estado == e
    ensures forall q :: q in t.reservas && q != id ==> SetReservaEstado(t, id, e).reservas[q] == t.reservas[q]
    ensures forall c :: Waiters(SetReservaEstado(t, id, e).reservas, c) == Waiters(t.reservas, c) - {id}
  {
    forall c
      ensures Waiters(SetReservaEstado(t, id, e).reservas, c) == Waiters(t.reservas, c) - {id}
    {
      CloseReservaLeavesWaitlist(t, id, e, c);
    }
  }

  // ---------------------------------------------------------------- the waitlist

  /** `r` heads the waitlist of copy `c`: an active reservation on `c` made no later than any other. */
  predicate FirstWaiter(reservas: map<Id, Reserva>, c: Id, r: Id)
  {
    && r in Waiters(reservas, c)
    && forall w :: w in Waiters(reservas, c) ==> reservas[r].fechaReserva <= reservas[w].fechaReserva
  }

  /** A copy with a waitlist has a first waiter: the ordered query always finds a row when one matches. */
  lemma {:induction false} FirstWaiterExists(reservas: map<Id, Reserva>, c: Id)
    requires Waiters(reservas, c) != {}
    ensures exists r :: FirstWaiter(reservas, c, r)
    decreases |reservas|
  {
    var w :| w in Waiters(reservas, c);
    var rest := reservas - {w};
    assert Waiters(reservas, c) == Waiters(rest, c) + {w};
    if Waiters(rest, c) == {} {
      assert FirstWaiter(reservas, c, w);
    } else {
      FirstWaiterExists(rest, c);
      var r :| FirstWaiter(rest, c, r);
      if reservas[w].fechaReserva < reservas[r].fechaReserva {
        assert FirstWaiter(reservas, c, w);
      } else {
        assert FirstWaiter(reservas, c, r);
      }
    }
  }

  /** Two first waiters reserved at the same time: the query's choice among them is unspecified. */
  lemma FirstWaiterTies(reservas: map<Id, Reserva>, c: Id, r1: Id, r2: Id)
    requires FirstWaiter(reservas, c, r1) && FirstWaiter(reservas, c, r2)
    ensures reservas[r1].fechaReserva == reservas[r2].fechaReserva
  {
  }

  /** The only waiter is the first waiter. */
  lemma FirstWaiterOfOne(reservas: map<Id, Reserva>, c: Id, r: Id)
    requires Waiters(reservas, c) == {r}
    ensures FirstWaiter(reservas, c, r)
    ensures forall q :: FirstWaiter(reservas, c, q) ==> q == r
  {
  }

  /**
   * liberar_copia_para_reserva: the first user on copy `c`'s waitlist gets the copy reserved.
   * Returns that reservation, or None when nobody waits; the reservation itself stays activa.
   */
  method LiberarCopiaParaReserva(s: Session, c: Id) returns (r: Option<Id>)
    requires s.Valid()
    modifies s
    ensures s.Valid()
    ensures r.None? <==> Waiters(old(s.reservas), c) == {}
    ensures r.None? ==> s.State() == old(s.State())
    ensures r.Some? ==> FirstWaiter(old(s.reservas), c, r.value) && c in old(s.copias)
    ensures r.Some? ==> s.State() == SetEstado(old(s.State()), c, Reservado)
  {
    if Waiters(s.reservas, c) == {} {
      return None;
    }
    FirstWaiterExists(s.reservas, c);
    var w :| FirstWaiter(s.reservas, c, w);
    assert ReservationLinked(s.copias, s.reservas[w]);
    ghost var before := s.State();
    s.copias := s.copias[c := s.copias[c].(estado := Reservado)];
    assert s.State() == SetEstado(before, c, Reservado);
    SetEstadoKeepsWellFormed(before, c, Reservado);
    r := Some(w);
  }

  /**
   * A return hands `liberar_copia_para_reserva` a well-formed database in which the returned copy
   * is disponible and its waitlist is the one before the return. A release of that copy then
   * reserves it exactly when that waitlist is non-empty, by the release's own contract.
   */
  lemma ReturnThenRelease(t: Tables, id: Id, today: int, now: int)
    requires WellFormed(t) && id in t.prestamos
    ensures var c := t.prestamos[id].idCopia.value;
      var returned := StudentController.ReturnLoanEffect(t, id, today, now);
      && WellFormed(returned) && c in returned.copias
      && returned.copias[c].estado == Disponible
      && Waiters(returned.reservas, c) == Waiters(t.reservas, c)
  {
    StudentController.ReturnLoanKeepsWellFormed(t, id, today, now);
    StudentController.ReturnLoanFreesCopy(t, id, today, now);
    StudentController.ReturnLoanEndsLoan(t, id, today, now);
  }
}
