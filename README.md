# Library circulation engine, modelled in Dafny

This project models the circulation engine of a small library application (Python, SQLAlchemy,
a Flet user interface), and proves properties of it. The engine covers these steps:
- students request loans, place reservations on copies that are out on loan, return loans and
  cancel reservations;
- librarians approve or reject loan requests, close reservations and hand a returned copy to
  the first user on its waitlist;
- a late return produces a fine, and a pending fine blocks the user's next requests.

The database session is the class `Store.Session`:
- it holds one `map` field per table, plus the next value of each serial key;
- its ghost function `State()` gathers those fields into a `Models.Tables` value;
- `Valid()` is the schema invariant `Models.WellFormed`.

Each controller is a module of methods that update that session in place. Each state change is
written three times:
- a guard function says which exception the operation raises, if any;
- an effect function gives the new tables on success;
- a method performs the guards and field updates step by step. Its `ensures` tie the new state
  to the effect, or to the old state on failure.

Lemmas about the effect functions state what the operation promises. `Circulation` proves that
a cross-table consistency invariant is kept by every operation except the student's cancellation
(see Findings). `AuthController` is a class with the logged-in user as its field. The
registration form's validators are pure functions with reference definitions:
- `Strip` against its characterisation;
- `ValidEmail` against a ghost reading of the regular expression.

Modules, one file each:
- `Wrappers`: Option and Result.
- `Models`: records, status enums, schema invariants.
- `Store`: the session.
- `Query`: ordered filtered reads.
- `StudentController`, `PrestamoController`, `ReservaController`: the three controllers.
- `Circulation`: the consistency invariant and the finding.
- `Auth`: login state and registration.
- `RegisterView`: the registration form.

Inputs the code takes from its environment are parameters:
- `date.today()` is `today` (a day number);
- `func.now()` is `now` (an integer timestamp);
- bcrypt's `hashpw` with its random salt is a function parameter `hashpw`;
- bcrypt's `checkpw` is a function parameter `checkpw`.

Copy statuses are the closed datatype `Models.Estado`. The seed order fixes their ids 1 to 4,
so the hard-coded status id 3 is `Reservado` (`Models.PendingEstado`).

## Model

| member | source | states |
|---|---|---|
| Models.EstadoId | library_app/src/scripts/seed_estado.py:13-18 | every copy status has one of the four seeded ids |
| Models.EstadoFromId | library_app/src/scripts/seed_estado.py:13-18 | exactly the ids 1 to 4 name a status, and the lookup inverts `EstadoId`, so id 3 is reservado |
| Models.StatusChangeKeepsSchema | library_app/src/model/models.py:81-100 | rewriting copy statuses only keeps copy codes unique and every loan and reservation linked to an existing copy |
| Models.SetEstadoKeepsWellFormed | library_app/src/model/models.py:86-89 | the engine's one kind of copy write, `copia.id_estado = ...`, keeps the schema invariants and changes nothing but a status |
| Models.DropMovimientoKeepsWellFormed | library_app/src/model/models.py:130-138 | deleting a loan request keeps the schema invariants |
| Models.CloseReservaLeavesWaitlist | library_app/src/controllers/reservaController.py:22-48 | setting a reservation to cancelada or completada removes it from its copy's waitlist and no other, keeps one active reservation per pair and keeps the schema |
| Models.SetEstado | library_app/src/model/models.py:86-87 | the write `copia.id_estado = ...`; its properties are `Models.SetEstadoKeepsWellFormed` |
| Models.SetReservaEstado | library_app/src/model/models.py:119-125 | the write `reserva.estado = ...`; its properties are `Models.CloseReservaLeavesWaitlist` |
| Models.DeleteMaterial | library_app/src/controllers/materialController.py:58-65 | a missing material is reported and nothing is deleted. A delete that a loan, reservation or fine on one of the material's copies refuses (their RESTRICT keys) is reported as such. Otherwise exactly that material and exactly its copies go, the other copies are unchanged, every request on a deleted copy loses its copy (SET NULL) and keeps its other columns, and no other table changes |
| Models.DeleteMaterialKeepsWellFormed | library_app/src/model/models.py:57-59 | a delete that goes through keeps the schema invariants; no copy of the material remains, and no request or fine names a deleted copy |
| Models.LoanRestrictsDelete | library_app/src/model/models.py:108 | a loan of one of the material's copies, active or returned, refuses the delete |
| Query.SelectDesc | library_app/src/controllers/prestamoController.py:109-119 | a filtered `ORDER BY ... DESC` read returns exactly the matching rows, each once, with keys non-increasing |
| Query.InsertByKey | library_app/src/controllers/prestamoController.py:109-119 | inserting one row into a descending list keeps it descending, adds exactly that row, and adds no duplicate |
| StudentController.CalcularMulta | library_app/src/controllers/studentController.py:273-287 | the fine for a number of days late; its properties are `CalcularMultaFollowsSchedule`, `CalcularMultaTable` and `CalcularMultaMonotone` |
| StudentController.CalcularMultaFollowsSchedule | library_app/src/controllers/studentController.py:273-287 | the fine equals an independent day-by-day schedule for every day count from 1: 1000 for the first day, 1500 more on the second, nothing more to the seventh, 100 per later day |
| StudentController.CalcularMultaTable | library_app/src/controllers/studentController.py:273-287 | 1 day costs 1000, 2 and 7 days cost 2500, 8 days 2600, 9 days 2700, 10 days 2800 |
| StudentController.CalcularMultaMonotone | library_app/src/controllers/studentController.py:273-287 | a later return never costs less, and any late return costs at least 1000 |
| StudentController.TieneMultasPendientes | library_app/src/controllers/studentController.py:289-296 | true exactly when some fine of that user is pendiente |
| StudentController.CountAvailableCopies | library_app/src/controllers/studentController.py:57-67 | the count is positive exactly when the material has an available copy |
| StudentController.CountLoanedCopies | library_app/src/controllers/studentController.py:90-93 | the count is positive exactly when the material has a copy on loan |
| StudentController.GetAvailableMaterials | library_app/src/controllers/studentController.py:14-32 | lists each material with an available copy exactly once, with its count, and no other material |
| StudentController.GetAllMaterialsWithCopies | library_app/src/controllers/studentController.py:73-102 | lists each material with an available or loaned copy exactly once, with both counts, and no other material |
| StudentController.RequestLoanCheck | library_app/src/controllers/studentController.py:183-198 | the exception `request_loan` raises, if any: a pending fine first, then no available copy; `NoAvailableCopyFailsRequest` states the second |
| StudentController.RequestLoanEffect | library_app/src/controllers/studentController.py:200-221 | the tables after a successful request; `RequestLoanKeepsWellFormed`, `RequestLoanTakesOneCopy` and `RequestLoanAddsPendingRequest` state what it does |
| StudentController.RequestLoan | library_app/src/controllers/studentController.py:180-223 | fails, changing nothing, with a pending fine or no available copy, in that order; otherwise some available copy of the material becomes reservado and exactly one pending request is added under the next key |
| StudentController.RequestLoanKeepsWellFormed | library_app/src/controllers/studentController.py:207-221 | a successful request keeps the schema invariants |
| StudentController.RequestLoanTakesOneCopy | library_app/src/controllers/studentController.py:192-218 | the material's count of available copies drops by exactly one; other materials' counts are unchanged |
| StudentController.RequestLoanAddsPendingRequest | library_app/src/controllers/studentController.py:207-220 | the pending queue grows by exactly the new request, which has that copy and user and is due `today + dias` |
| StudentController.NoAvailableCopyFailsRequest | library_app/src/controllers/studentController.py:192-198 | with no available copy the request fails whatever else holds |
| StudentController.CreateReservationCheck | library_app/src/controllers/studentController.py:141-166 | the exception `create_reservation` raises, if any: a pending fine, no loaned copy, or an active reservation by the user on the chosen copy, in that order; `StudentController.CreateReservation` states the order |
| StudentController.CreateReservationEffect | library_app/src/controllers/studentController.py:168-176 | the tables after a successful reservation; `CreateReservationKeepsWellFormed` and `CreateReservationJoinsWaitlist` state what it does |
| StudentController.CreateReservation | library_app/src/controllers/studentController.py:138-178 | fails, changing nothing, with a pending fine, with no loaned copy, or with an active reservation by the user on the chosen loaned copy, in that order; otherwise adds exactly one active reservation on some loaned copy |
| StudentController.CreateReservationKeepsWellFormed | library_app/src/controllers/studentController.py:169-176 | a new reservation keeps the schema invariants |
| StudentController.CreateReservationJoinsWaitlist | library_app/src/controllers/studentController.py:158-175 | the new reservation joins exactly its copy's waitlist, changes no copy, and keeps one active reservation per (copy, user) |
| StudentController.CancelReservationEffect | library_app/src/controllers/studentController.py:308-322 | the tables after a cancellation; `CancelReservationKeepsWellFormed` and `CancelReservationFreesOnlyReserved` state what it does |
| StudentController.CancelReservation | library_app/src/controllers/studentController.py:308-322 | the session ends as the cancellation effect: the reservation cancelada and its copy, if reservado, disponible |
| StudentController.CancelReservationKeepsWellFormed | library_app/src/controllers/studentController.py:308-322 | the cancellation keeps the schema invariants |
| StudentController.CancelReservationFreesOnlyReserved | library_app/src/controllers/studentController.py:308-322 | only that reservation changes, and it leaves every waitlist; its copy moves from reservado to disponible and keeps any other status; no other copy changes |
| StudentController.CloseLoan | library_app/src/controllers/studentController.py:238-249 | the loan row's writes on a return; `CloseLoanKeepsWellFormed` and `CloseLoanEndsLoan` state what it does |
| StudentController.AddMulta | library_app/src/controllers/studentController.py:252-261 | the fine insert on a late return; `AddMultaKeepsWellFormed` states what it keeps |
| StudentController.RecordReturn | library_app/src/controllers/studentController.py:238-261 | the loan and fine writes of a return; `RecordReturnKeepsWellFormed`, `ReturnLoanFineRule` and `ReturnKeepsCopiesAndReservations` state what it does |
| StudentController.ReturnLoanEffect | library_app/src/controllers/studentController.py:235-271 | the tables after a return; `ReturnLoanKeepsWellFormed`, `ReturnLoanFreesCopy` and `ReturnLoanEndsLoan` state what it does |
| StudentController.CloseLoanKeepsWellFormed | library_app/src/controllers/studentController.py:238-249 | writing the returned loan's status, return date and fine keeps the schema invariants |
| StudentController.CloseLoanEndsLoan | library_app/src/controllers/studentController.py:238-239 | the returned loan leaves the active loans and no other loan does |
| StudentController.AddMultaKeepsWellFormed | library_app/src/controllers/studentController.py:252-261 | inserting a fine under the next key keeps the schema invariants |
| StudentController.ReturnLoan | library_app/src/controllers/studentController.py:235-271 | the session ends as the return effect, and a fine id is returned exactly when the return date is after the due date |
| StudentController.ReturnLoanKeepsWellFormed | library_app/src/controllers/studentController.py:235-271 | a return keeps the schema invariants |
| StudentController.RecordReturnKeepsWellFormed | library_app/src/controllers/studentController.py:238-261 | the loan and fine writes of a return keep the schema invariants |
| StudentController.ReturnLoanFineRule | library_app/src/controllers/studentController.py:238-261 | the loan becomes devuelto, returned today. A fine is added exactly when today is after the due date: one pendiente, unpaid fine for that loan, copy and user, with the days late and `calcular_multa` of them, the same amount written on the loan. Otherwise no fine and the loan's amount is unchanged |
| StudentController.ReturnLoanFineExamples | library_app/src/controllers/studentController.py:242-261 | on the due date no fine; one day late 1000; nine days late 2700 |
| StudentController.LateReturnBlocksBorrower | library_app/src/controllers/studentController.py:242-261 | after a late return the borrower has a pending fine, so their next loan request and reservation fail with the fine error |
| StudentController.ReturnLoanFreesCopy | library_app/src/controllers/studentController.py:263-267 | the returned copy becomes disponible whatever reservations wait for it; no other copy changes |
| StudentController.ReturnLoanEndsLoan | library_app/src/controllers/studentController.py:237-239 | the returned loan leaves the active loans, and the reservations are untouched |
| StudentController.ReturnKeepsCopiesAndReservations | library_app/src/controllers/studentController.py:238-261 | the bookkeeping half of a return writes only the returned loan and the fines |
| StudentController.GetUserLoans | library_app/src/controllers/studentController.py:229-233 | exactly the user's loans, each once, newest loan date first |
| StudentController.GetUserReservations | library_app/src/controllers/studentController.py:302-306 | exactly the user's reservations, each once, newest first |
| PrestamoController.GetMovimientosPendientes | library_app/src/controllers/prestamoController.py:10-16 | exactly the requests in status 3, each once, newest request first |
| PrestamoController.AprobarCheck | library_app/src/controllers/prestamoController.py:22-54 | the exception `aprobar_prestamo` raises, if any, in source order; `AprobarTwicePasses` shows the request's status is not checked |
| PrestamoController.AprobarEffect | library_app/src/controllers/prestamoController.py:56-73 | the tables after an approval; `AprobarKeepsWellFormed`, `AprobarCreatesLoan` and `AprobarLeavesQueue` state what it does |
| PrestamoController.AprobarPrestamo | library_app/src/controllers/prestamoController.py:18-75 | raises, changing nothing, for a missing request, a request without copy, a missing copy, or a request without user, in that order; otherwise the session ends as the approval effect and the new loan's key is returned |
| PrestamoController.AprobarKeepsWellFormed | library_app/src/controllers/prestamoController.py:56-73 | an approval keeps the schema invariants |
| PrestamoController.AprobarCreatesLoan | library_app/src/controllers/prestamoController.py:56-63 | exactly one loan is added under a fresh key, active: that copy and user, lent today, due on the request's date, no return date, fine 0. Old loans are unchanged |
| PrestamoController.AprobarLeavesQueue | library_app/src/controllers/prestamoController.py:65-70 | the copy becomes prestado and no other copy changes; the request becomes prestado and leaves the pending queue; reservations and fines are untouched |
| PrestamoController.AprobarTwicePasses | library_app/src/controllers/prestamoController.py:22-54 | an approved request passes the guards again: the request's status is not among them |
| PrestamoController.ReleaseCopy | library_app/src/controllers/prestamoController.py:89-102 | frees the request's copy when there is one; `ReleaseCopyKeepsWellFormed` states what it keeps |
| PrestamoController.RechazarEffect | library_app/src/controllers/prestamoController.py:89-106 | the tables after a rejection; `RechazarKeepsWellFormed` and `RechazarRemovesRequest` state what it does |
| PrestamoController.ReleaseCopyKeepsWellFormed | library_app/src/controllers/prestamoController.py:89-102 | freeing the request's copy, if it exists, keeps the schema and changes only a status |
| PrestamoController.RechazarSolicitud | library_app/src/controllers/prestamoController.py:77-107 | raises, changing nothing, exactly when the request is missing; otherwise the session ends as the rejection effect |
| PrestamoController.RechazarKeepsWellFormed | library_app/src/controllers/prestamoController.py:89-106 | a rejection keeps the schema invariants |
| PrestamoController.RechazarRemovesRequest | library_app/src/controllers/prestamoController.py:89-106 | the request row is deleted and no other request changes. Its copy, if present, becomes disponible whatever its status was; no other copy changes; loans and reservations are untouched |
| PrestamoController.GetPrestamosActivos | library_app/src/controllers/prestamoController.py:109-113 | exactly the activo loans, each once, newest loan date first |
| PrestamoController.GetAllPrestamos | library_app/src/controllers/prestamoController.py:115-119 | every loan, each once, newest loan date first |
| ReservaController.GetReservasActivas | library_app/src/controllers/reservaController.py:10-14 | exactly the activa reservations, each once, newest first |
| ReservaController.GetAllReservas | library_app/src/controllers/reservaController.py:16-20 | every reservation, each once, newest first |
| ReservaController.CancelarReserva | library_app/src/controllers/reservaController.py:22-34 | raises, changing nothing, exactly when the reservation is missing; otherwise only its status changes, to cancelada, whatever it was |
| ReservaController.CompletarReserva | library_app/src/controllers/reservaController.py:36-48 | raises, changing nothing, exactly when the reservation is missing; otherwise only its status changes, to completada |
| ReservaController.ClosingTouchesNoCopy | library_app/src/controllers/reservaController.py:22-48 | closing a reservation changes no copy and no other reservation, and takes it off every waitlist |
| ReservaController.FirstWaiterExists | library_app/src/controllers/reservaController.py:56-59 | a copy with an active reservation has one with the earliest reservation time |
| ReservaController.FirstWaiterTies | library_app/src/controllers/reservaController.py:56-59 | two first waiters have the same reservation time |
| ReservaController.FirstWaiterOfOne | library_app/src/controllers/reservaController.py:56-59 | the only waiter is the one first waiter |
| ReservaController.LiberarCopiaParaReserva | library_app/src/controllers/reservaController.py:50-73 | returns None, changing nothing, exactly when nobody waits; otherwise returns an earliest active reservation on the copy and the copy becomes reservado |
| ReservaController.ReturnThenRelease | library_app/src/controllers/reservaController.py:50-73 | a return leaves a well-formed database, the copy disponible and its waitlist as before, so a release of that copy then reserves it exactly when someone waited before the return |
| Circulation.InitiallyConsistent | library_app/src/controllers/studentController.py:209-218 | with no requests and no loans every copy status is consistent |
| Circulation.AvailableCopyIsFree | library_app/src/controllers/studentController.py:192-198 | in a consistent database an available copy is held by no pending request and no active loan |
| Circulation.RequestLoanKeepsConsistent | library_app/src/controllers/studentController.py:192-223 | a request on an available copy keeps every pending request on its own reservado copy and every active loan on its own prestado copy |
| Circulation.AprobarKeepsConsistent | library_app/src/controllers/prestamoController.py:56-73 | approving a pending request moves its hold to the new loan and keeps consistency |
| Circulation.RechazarKeepsConsistent | library_app/src/controllers/prestamoController.py:89-106 | rejecting a pending request frees only the copy it held and keeps consistency |
| Circulation.ReturnLoanKeepsConsistent | library_app/src/controllers/studentController.py:235-271 | returning an active loan frees only the copy it held and keeps consistency |
| Circulation.CreateReservationKeepsConsistent | library_app/src/controllers/studentController.py:168-176 | a new reservation keeps consistency |
| Circulation.CloseReservaKeepsConsistent | library_app/src/controllers/reservaController.py:22-48 | cancelar_reserva and completar_reserva keep consistency |
| Circulation.LiberarKeepsConsistent | library_app/src/controllers/reservaController.py:61-73 | reserving a copy no loan holds keeps consistency |
| Circulation.CancelReservationCorrected | library_app/src/controllers/studentController.py:308-322 | corrected cancellation: the reservation is cancelada and the copy goes to disponible only if reservado and held by no pending request; nothing else changes |
| Circulation.CancelReservationCorrectedKeepsConsistent | library_app/src/controllers/studentController.py:308-322 | the corrected cancellation keeps consistency |
| Circulation.CancelReservationCorrectedAgrees | library_app/src/controllers/studentController.py:308-322 | on a copy no request holds, the corrected cancellation equals the cancellation as written |
| Circulation.Scenario | library_app/src/controllers/studentController.py:308-322 | a consistent, well-formed database where a reserved copy is held by a pending request and also has an active reservation |
| Circulation.CancelReservationReleasesHeldCopy | library_app/src/controllers/studentController.py:308-322 | in that database the cancellation as written breaks consistency; a second user's request then passes, and approving both requests gives two active loans of one copy |
| Circulation.CancelReservationCorrectedKeepsHold | library_app/src/controllers/studentController.py:308-322 | in the same database the corrected cancellation keeps the copy reservado and the database consistent |
| Auth.CheckPassword | library_app/src/model/usuario.py:34-39 | a null or empty hash never matches, otherwise bcrypt's check decides; `Auth.RegisteredUserCanLogIn` states that a registered password checks |
| Auth.RegisterEffect | library_app/src/controllers/authControllers.py:54-62 | the user insert of a registration; `Auth.RegisterKeepsWellFormed` states what it keeps |
| Auth.AnyRoleNamed | library_app/src/controllers/authControllers.py:74 | true exactly when some role in the list has that name |
| Auth.EmailExists | library_app/src/controllers/authControllers.py:85-91 | true exactly when some user has that correo |
| Auth.UsernameExists | library_app/src/controllers/authControllers.py:93-99 | true exactly when some user has that nombre |
| Auth.RegisterKeepsWellFormed | library_app/src/controllers/authControllers.py:54-62 | an insert that passes the unique correo constraint keeps the schema; the set of correos and the set of nombres each grow by exactly the new one |
| Auth.RegisterKeepsNombreUnique | library_app/src/controllers/authControllers.py:48-62 | a name that was unique stays unique after an insert, provided the inserted name was checked absent when it is that name |
| Auth.AuthController.constructor | library_app/src/controllers/authControllers.py:13-15 | a controller starts with nobody logged in |
| Auth.AuthController.Login | library_app/src/controllers/authControllers.py:18-32 | an empty name or password, or an unknown name, fails. Success logs in a user with that name whose password checks; failure keeps the logged-in user. When the name is unique, success happens exactly when that user's password checks |
| Auth.AuthController.Logout | library_app/src/controllers/authControllers.py:76-77 | nobody is logged in afterwards |
| Auth.AuthController.GetCurrentUser | library_app/src/controllers/authControllers.py:79-80 | returns the logged-in user, an existing user |
| Auth.AuthController.UserHasRole | library_app/src/controllers/authControllers.py:71-74 | false with nobody logged in; otherwise true exactly when a role of the logged-in user has that name |
| Auth.AuthController.Register | library_app/src/controllers/authControllers.py:36-68 | succeeds exactly when a role has that name and the correo is unused. On failure nothing changes. On success exactly one user is added under the next key, with the password's hash and that one role; the logged-in user is unchanged |
| Auth.RegisteredUserCanLogIn | library_app/src/model/usuario.py:29-39 | a newly registered user has the name, passes the password check with the password it registered with, and has the role |
| RegisterView.Strip | library_app/src/view/registerView.py:88-90 | the result is a slice of the text with only whitespace outside it, and it neither starts nor ends with whitespace |
| RegisterView.StripFixed | library_app/src/view/registerView.py:88-90 | a text with no whitespace at either end strips to itself |
| RegisterView.StripIdempotent | library_app/src/view/registerView.py:88-90 | stripping twice is stripping once |
| RegisterView.StripEmptyIffBlank | library_app/src/view/registerView.py:88-93 | a field strips to nothing exactly when it is all whitespace |
| RegisterView.ValidEmail | library_app/src/view/registerView.py:76-77 | the index test holds exactly when the regular expression matches |
| RegisterView.ValidEmailIsRegex | library_app/src/view/registerView.py:76-77 | the first-`@` test agrees with the pattern read as a split `a@b.c`, including the trailing-newline case of `$` |
| RegisterView.SplitDecides | library_app/src/view/registerView.py:76-77 | a split fixes the first `@` and passes the index test |
| RegisterView.TrailingNewline | library_app/src/view/registerView.py:76-77 | a split of the text less a final newline is a split of the whole text, so the newline case never decides |
| RegisterView.ValidEmailExamples | library_app/src/view/registerView.py:76-77 | `a@b.c` and `a@b.c.d` are accepted; `a@b`, `@b.c`, `a@.c` and `a@@b.c` are rejected |
| RegisterView.ValidPassword | library_app/src/view/registerView.py:79-82 | valid exactly when at least six characters long |
| RegisterView.PreRegisterCheck | library_app/src/view/registerView.py:87-123 | the form's checks in their order; `MissingFieldsFirst`, `TakenNameReportedFirst`, `PasswordRule` and `PassedChecks` state the order and what passing means |
| RegisterView.MissingFieldsFirst | library_app/src/view/registerView.py:87-99 | a blank name or address, an empty password or no user type is reported as missing before any other check |
| RegisterView.PassedChecks | library_app/src/view/registerView.py:93-123 | the controller is reached only with a non-empty new stripped name, a stripped address the pattern matches, a password of at least six characters and a user type |
| RegisterView.TakenNameReportedFirst | library_app/src/view/registerView.py:88-107 | once no field is blank, a name that strips to a stored user's name is reported as taken, whatever the address and password |
| RegisterView.PasswordRule | library_app/src/view/registerView.py:89-123 | once name and address pass, the unstripped password decides alone, by length: empty is missing, under six is invalid, six or more passes |
| RegisterView.Register | library_app/src/view/registerView.py:87-135 | a failing check is reported and changes nothing. Otherwise the controller runs with the stripped name and address. When the checks pass the outcome is registered or failed, never another message. The outcome is registered exactly when all checks pass, the role exists and the address is unused, in which case the user is added; every other outcome changes nothing |

## Left out

- The Flet user interface: dialogs, tables, snackbars, routing and the other view files. Of these only the registration form's checks are modelled.
- `search_available_materials` and `search_materials_with_copies`: they are the catalog listers restricted by an `ilike` title search, and SQL pattern matching is not modelled.
- `get_material_authors` and `get_roles`: plain reads with nothing to prove.
- The request's `detalle` text, the copy's `fecha_adquisicion` default and every column default computed by the database. A timestamp the database fills in is the parameter `now`.
- The status lookups by name (`filter_by(nombre="disponible").first()` and the like). Statuses are a closed datatype with all four seeded, so the branches for a missing status row are not modelled.
- Column length limits (`String(100)` and the like) and the errors a too-long value raises.
- Transactions, commit, rollback and concurrency: each operation is one atomic step on the session. The check-then-set race in `request_loan` is not modelled.
- Money columns are `Numeric` or float in the code; here they are integers, because every fine amount is a whole number.
- bcrypt itself: hashing with a fresh salt is the parameter `hashpw`, checking is `checkpw`, and the model assumes nothing about them.
- The CRUD controllers (materials, copies, users), the seed scripts and the database setup. The administrative copy edit can write any status, including dañado; that is outside the engine.
- Query.SelectDesc: the order among rows with equal keys is not stated, because the database does not specify it.
- Auth.AuthController.Login: between two users with the same name, `.first()` picks one the model does not determine, so the if-and-only-if is stated only when the name is unique.
- Auth.AuthController.Register: the only integrity error modelled is the unique correo constraint.
- StudentController.ReturnLoan: it requires the loan row to exist (the code is handed a loaded row). The schema invariant gives the loan a copy and a user. A loan without a copy, which the engine never creates, would make the code raise after its writes; that case is not modelled.
- StudentController.CancelReservation: it requires the reservation row to exist and, through the schema invariant, to name an existing copy.
- ReservaController.LiberarCopiaParaReserva: the branch for a reservation without a copy cannot occur under the schema invariant, so it is not modelled; the waiter's reservation stays activa, and who the copy is reserved for is not recorded anywhere.
- Circulation.AprobarKeepsConsistent: it requires the request to be pending, the gate of the librarian's screen; the operation itself does not check it (PrestamoController.AprobarTwicePasses).
- Circulation.ReturnLoanKeepsConsistent: it requires the loan to be active, the gate of the student's loan screen; the operation itself does not check it.
- Circulation.RechazarKeepsConsistent: it requires the request to be pending, the gate of the librarian's pending list. `rechazar_solicitud` frees the copy whatever the request's status, so rejecting an approved request would free a copy that is on loan (PrestamoController.RechazarRemovesRequest).
- Circulation.LiberarKeepsConsistent: it requires that no active loan holds the copy. `liberar_copia_para_reserva` does not check this; only its use after a return gives that context.
- Models.DeleteMaterial: it follows the foreign-key actions the schema declares (RESTRICT for loans, reservations and fines, SET NULL for requests). The ORM may instead null the copy key of loaded loans and reservations before it deletes a copy, and that is not modelled. Author links (`material_autor`) are not modelled.
- Auth.AuthController.Register: the role name is always passed explicitly, as the only caller does, so the default `role_name="estudiante"` is not modelled.

The code behaves as follows in these points, and the model follows it:
- `request_loan` does not check that `dias` is positive.
- `return_loan` always makes the copy disponible and never hands it to a waiter.
- `aprobar_prestamo` does not check that the request is still pending, nor that its copy is reservado.
- `rechazar_solicitud` deletes the request row.

## Findings

| source | as written | input that shows it | evidently intended | confidence | as-written member | corrected member |
|---|---|---|---|---|---|---|
| library_app/src/controllers/studentController.py:308-322 | cancelling a reservation sends its copy from reservado to disponible whoever holds it | copy 1 reservado for pending request 1 of user 2, with an active reservation of user 1 on it (`Circulation.Scenario`); user 1 cancels. Copy 1 becomes disponible while request 1 is pending; user 3's request then passes, and approving both requests lends copy 1 twice | free the copy only when no pending loan request holds it | not executed | Circulation.CancelReservationReleasesHeldCopy | Circulation.CancelReservationCorrectedKeepsConsistent |
