/** The database session every controller shares: one map per table, updated in place. */
module Store {
  import opened Wrappers
  import opened Models

  class Session {
    var materiales: map<Id, Material>
    var copias: map<Id, Copia>
    var movimientos: map<Id, Movimiento>
    var prestamos: map<Id, Prestamo>
    var reservas: map<Id, Reserva>
    var multas: map<Id, Multa>
    var usuarios: map<Id, Usuario>
    var roles: map<Id, Rol>
    var nextMovimiento: Id
    var nextPrestamo: Id
    var nextReserva: Id
    var nextMulta: Id
    var nextUsuario: Id

    /** The contents of all tables. */
    ghost function State(): Tables
      reads this
    {
      Tables(materiales, copias, movimientos, prestamos, reservas, multas, usuarios, roles,
             nextMovimiento, nextPrestamo, nextReserva, nextMulta, nextUsuario)
    }

    ghost predicate Valid()
      reads this
    {
      WellFormed(State())
    }

    /** A freshly seeded database: catalog, copies and roles, and no circulation yet. */
    constructor (materiales: map<Id, Material>, copias: map<Id, Copia>, roles: map<Id, Rol>)
      requires UniqueCodigos(copias) && UniqueRoleNames(roles)
      ensures Valid()
      ensures State() == Tables(materiales, copias, map[], map[], map[], map[], map[], roles, 1, 1, 1, 1, 1)
    {
      this.materiales := materiales;
      this.copias := copias;
      this.movimientos := map[];
      this.prestamos := map[];
      this.reservas := map[];
      this.multas := map[];
      this.usuarios := map[];
      this.roles := roles;
      this.nextMovimiento := 1;
      this.nextPrestamo := 1;
      this.nextReserva := 1;
      this.nextMulta := 1;
      this.nextUsuario := 1;
    }
  }
}
