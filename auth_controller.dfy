/**
 * Login state and registration. The controller keeps the logged-in user in a field; the user
 * lookups go to the shared session. bcrypt is not modelled: checking a password against a
 * stored hash is the parameter `checkpw`, and hashing with this call's random salt is `hashpw`.
 */
module Auth {
  import opened Wrappers
  import opened Models
  import opened Store

  /** check_password: a null or empty hash never matches; otherwise bcrypt decides. */
  predicate CheckPassword(u: Usuario, password: string, checkpw: (string, string) -> bool)
  {
    u.passwordHash.Some? && u.passwordHash.value != "" && checkpw(password, u.passwordHash.value)
  }

  /** Python's `any(r.nombre == role_name for r in roles)`, scanning from the front. */
  function AnyRoleNamed(roles: seq<Rol>, name: string): (b: bool)
    ensures b <==> exists i :: 0 <= i < |roles| && roles[i].nombre == name
  {
    if |roles| == 0 then false
    else if roles[0].nombre == name then true
    else
      var rest := AnyRoleNamed(roles[1..], name);
      assert forall i :: 1 <= i < |roles| ==> roles[i] == roles[1..][i - 1];
      rest
  }

  /** The correos in use. */
  function Correos(usuarios: map<Id, Usuario>): set<string>
  {
    set u | u in usuarios :: usuarios[u].correo
  }

  /** email_exists: the query finds a row exactly when some user has that correo. */
  function EmailExists(usuarios: map<Id, Usuario>, email: string): (b: bool)
    ensures b <==> exists u :: u in usuarios && usuarios[u].correo == email
  {
    email in Correos(usuarios)
  }

  /** The nombres in use. */
  function Nombres(usuarios: map<Id, Usuario>): set<string>
  {
    set u | u in usuarios :: usuarios[u].nombre
  }

  /** username_exists: the query finds a row exactly when some user has that nombre. */
  function UsernameExists(usuarios: map<Id, Usuario>, nombre: string): (b: bool)
    ensures b <==> exists u :: u in usuarios && usuarios[u].nombre == nombre
  {
    nombre in Nombres(usuarios)
  }

  /** At most one user has nombre `nombre` (the column itself is not unique). */
  ghost predicate NombreUnique(usuarios: map<Id, Usuario>, nombre: string)
  {
    forall a, b :: a in usuarios && b in usuarios && usuarios[a].nombre == nombre && usuarios[b].nombre == nombre ==> a == b
  }

  /** Registration's insert: the new user with its hash and the one role, under the next key. */
  function RegisterEffect(t: Tables, nombre: string, correo: string, hash: string, role: Rol): Tables
  {
    t.(usuarios := t.usuarios[t.nextUsuario := Usuario(nombre, correo, Some(hash), [role])], nextUsuario := t.nextUsuario + 1)
  }

  /** An insert that passes the unique constraint on correo keeps the schema invariants. */
  lemma RegisterKeepsWellFormed(t: Tables, nombre: string, correo: string, hash: string, role: Rol)
    requires WellFormed(t) && !EmailExists(t.usuarios, correo)
    ensures WellFormed(RegisterEffect(t, nombre, correo, hash, role))
    ensures Correos(RegisterEffect(t, nombre, correo, hash, role).usuarios) == Correos(t.usuarios) + {correo}
    ensures Nombres(RegisterEffect(t, nombre, correo, hash, role).usuarios) == Nombres(t.usuarios) + {nombre}
  {
    var after := RegisterEffect(t, nombre, correo, hash, role);
    var n := t.nextUsuario;
    assert n !in t.usuarios;
    assert after.usuarios[n].correo == correo && after.usuarios[n].nombre == nombre;
    forall x | x in Correos(after.usuarios)
      ensures x in Correos(t.usuarios) + {correo}
    {
      var u :| u in after.usuarios && after.usuarios[u].correo == x;
      if u != n {
        assert t.usuarios[u].correo == x;
      }
    }
    forall x | x in Correos(t.usuarios) + {correo}
      ensures x in Correos(after.usuarios)
    {
      if x != correo {
        var u :| u in t.usuarios && t.usuarios[u].correo == x;
        assert after.usuarios[u].correo == x;
      }
    }
    forall x | x in Nombres(after.usuarios)
      ensures x in Nombres(t.usuarios) + {nombre}
    {
      var u :| u in after.usuarios && after.usuarios[u].nombre == x;
      if u != n {
        assert t.usuarios[u].nombre == x;
      }
    }
    forall x | x in Nombres(t.usuarios) + {nombre}
      ensures x in Nombres(after.usuarios)
    {
      if x != nombre {
        var u :| u in t.usuarios && t.usuarios[u].nombre == x;
        assert after.usuarios[u].nombre == x;
      }
    }
  }

  /** A name checked with username_exists before the insert stays unique after it. */
  lemma RegisterKeepsNombreUnique(t: Tables, nombre: string, correo: string, hash: string, role: Rol, other: string)
    requires KeysBelow(t.usuarios, t.nextUsuario) && NombreUnique(t.usuarios, other)
    requires other == nombre ==> !UsernameExists(t.usuarios, nombre)
    ensures NombreUnique(RegisterEffect(t, nombre, correo, hash, role).usuarios, other)
  {
    var after := RegisterEffect(t, nombre, correo, hash, role).usuarios;
    forall a, b | a in after && b in after && after[a].nombre == other && after[b].nombre == other
      ensures a == b
    {
      if a != t.nextUsuario && b != t.nextUsuario {
        assert after[a] == t.usuarios[a] && after[b] == t.usuarios[b];
      } else if a != t.nextUsuario || b != t.nextUsuario {
        assert false;
      }
    }
  }

  class AuthController {
    const session: Session
    var currentUser: Option<Id>

    ghost predicate Valid()
      reads this, session
    {
      session.Valid() && (currentUser.Some? ==> currentUser.value in session.usuarios)
    }

    /** A controller starts with nobody logged in. */
    constructor (session: Session)
      requires session.Valid()
      ensures Valid() && this.session == session && currentUser == None
    {
      this.session := session;
      this.currentUser := None;
    }

    /**
     * login. The user is some user with that nombre (names are not unique, and the query has no
     * order); only that user's password is checked.
     */
    method Login(usuario: string, password: string, checkpw: (string, string) -> bool) returns (ok: bool)
      requires Valid()
      modifies this
      ensures Valid()
      ensures usuario == "" || password == "" ==> !ok
      ensures !UsernameExists(session.usuarios, usuario) ==> !ok
      ensures !ok ==> currentUser == old(currentUser)
      ensures ok ==> (currentUser.Some? && session.usuarios[currentUser.value].nombre == usuario
        && CheckPassword(session.usuarios[currentUser.value], password, checkpw))
      ensures ok ==> usuario != "" && password != ""
      ensures NombreUnique(session.usuarios, usuario) ==>
        (ok <==> (usuario != "" && password != "" &&
          exists u :: u in session.usuarios && session.usuarios[u].nombre == usuario && CheckPassword(session.usuarios[u], password, checkpw)))
    {
      if usuario == "" || password == "" {
        return false;
      }
      if !UsernameExists(session.usuarios, usuario) {
        return false;
      }
      var u :| u in session.usuarios && session.usuarios[u].nombre == usuario;
      if CheckPassword(session.usuarios[u], password, checkpw) {
        currentUser := Some(u);
        return true;
      }
      return false;
    }

    /** logout: nobody is logged in afterwards. */
    method Logout()
      requires Valid()
      modifies this
      ensures Valid() && currentUser == None
    {
      currentUser := None;
    }

    /** get_current_user. */
    function GetCurrentUser(): (u: Option<Id>)
      reads this, session
      requires Valid()
      ensures u.Some? ==> u.value in session.usuarios
      ensures u == currentUser
    {
      currentUser
    }

    /** user_has_role: false with nobody logged in, else whether some role of the user has that name. */
    function UserHasRole(roleName: string): (b: bool)
      reads this, session
      requires Valid()
      ensures currentUser.None? ==> !b
      ensures currentUser.Some? ==>
        (b <==> exists i :: 0 <= i < |session.usuarios[currentUser.value].roles| && session.usuarios[currentUser.value].roles[i].nombre == roleName)
    {
      if currentUser.None? then false
      else AnyRoleNamed(session.usuarios[currentUser.value].roles, roleName)
    }

    /**
     * register: false when no role has that name; false, with the insert rolled back, when the
     * correo is already in use (the unique constraint); otherwise the user is inserted with
     * the hash of the password and that one role.
     */
    method Register(nombre: string, correo: string, password: string, roleName: string, hashpw: string -> string) returns (ok: bool)
      requires Valid()
      modifies session
      ensures Valid() && currentUser == old(currentUser)
      ensures ok <==> (exists r :: r in old(session.roles) && old(session.roles)[r].nombre == roleName) && !EmailExists(old(session.usuarios), correo)
      ensures !ok ==> session.State() == old(session.State())
      ensures ok ==> session.State() == RegisterEffect(old(session.State()), nombre, correo, hashpw(password), Rol(roleName))
    {
      if !exists r :: r in session.roles && session.roles[r].nombre == roleName {
        return false;
      }
      var r :| r in session.roles && session.roles[r].nombre == roleName;
      var role := session.roles[r];
      assert role == Rol(roleName);
      var nuevo := Usuario(nombre, correo, Some(hashpw(password)), []);
      if EmailExists(session.usuarios, correo) {
        return false;
      }
      ghost var before := session.State();
      var id := session.nextUsuario;
      assert nuevo.roles + [role] == [Rol(roleName)];
      session.usuarios := session.usuarios[id := nuevo.(roles := nuevo.roles + [role])];
      session.nextUsuario := id + 1;
      assert session.State() == RegisterEffect(before, nombre, correo, hashpw(password), Rol(roleName));
      RegisterKeepsWellFormed(before, nombre, correo, hashpw(password), Rol(roleName));
      ok := true;
    }
  }

  /** After a successful registration the new user can log in with the password, and has the role. */
  lemma RegisteredUserCanLogIn(t: Tables, nombre: string, correo: string, password: string, roleName: string,
                               hashpw: string -> string, checkpw: (string, string) -> bool)
    requires KeysBelow(t.usuarios, t.nextUsuario) && password != "" && hashpw(password) != "" && checkpw(password, hashpw(password))
    ensures var after := RegisterEffect(t, nombre, correo, hashpw(password), Rol(roleName));
      && t.nextUsuario in after.usuarios
      && after.usuarios[t.nextUsuario].nombre == nombre
      && CheckPassword(after.usuarios[t.nextUsuario], password, checkpw)
      && AnyRoleNamed(after.usuarios[t.nextUsuario].roles, roleName)
  {
    var after := RegisterEffect(t, nombre, correo, hashpw(password), Rol(roleName));
    assert after.usuarios[t.nextUsuario].roles[0].nombre == roleName;
  }
}
