/** `UsuarioService`: user validation, the partial update of a user and the
    deletion of a user together with the user's bookings. */
module UsuarioService {
  import opened Common
  import opened Entities
  import opened CopiarClase
  import opened Repositories

  /** `validarUsuario`: the name, then the role (present, then one of the two
      recognised strings, compared exactly), then the email, then the
      password; the first check that fails is the one reported. */
  function ValidarUsuario(u: Usuario): (r: Outcome)
    ensures r == Fail(NombreObligatorio) <==> Missing(u.nombre)
    ensures r == Fail(RolObligatorio) <==> !Missing(u.nombre) && Missing(u.rol)
    ensures r == Fail(RolInvalido) <==>
      !Missing(u.nombre) && !Missing(u.rol) && !RolReconocido(u.rol.value)
    ensures r == Fail(EmailObligatorio) <==>
      !Missing(u.nombre) && !Missing(u.rol) && RolReconocido(u.rol.value) && Missing(u.email)
    ensures r == Fail(PasswordObligatoria) <==>
      !Missing(u.nombre) && !Missing(u.rol) && RolReconocido(u.rol.value) && !Missing(u.email) && Missing(u.password)
    ensures r == Pass <==>
      !Missing(u.nombre) && !Missing(u.rol) && RolReconocido(u.rol.value) && !Missing(u.email) && !Missing(u.password)
  {
    if Missing(u.nombre) then Fail(NombreObligatorio)
    else if Missing(u.rol) then Fail(RolObligatorio)
    else if u.rol.value != ROLE_ADMIN && u.rol.value != ROLE_PROFESOR then Fail(RolInvalido)
    else if Missing(u.email) then Fail(EmailObligatorio)
    else if Missing(u.password) then Fail(PasswordObligatoria)
    else Pass
  }

  /** A comma-joined list of roles never passes the role check: with a name
      present it is reported as an invalid role. A user that passes holds a
      single authority, its role. */
  lemma ValidarUsuarioRolUnico(u: Usuario)
    ensures u.rol.Some? && ',' in u.rol.value ==> ValidarUsuario(u) != Pass
    ensures u.rol.Some? && ',' in u.rol.value && !Missing(u.nombre) ==> ValidarUsuario(u) == Fail(RolInvalido)
    ensures ValidarUsuario(u) == Pass ==> Split(u.rol.value) == [u.rol.value]
  {
    if u.rol.Some? && RolReconocido(u.rol.value) {
      RolReconocidoUnaAutoridad(u.rol.value);
    }
  }

  /** `validarUsuario` passes exactly the users that meet the declared
      column constraints and hold one of the two recognised roles. */
  lemma ValidarUsuarioCubreRestricciones(u: Usuario)
    ensures ValidarUsuario(u) == Pass <==> UsuarioCumpleRestricciones(u) && RolReconocido(u.rol.value)
  {
  }

  /** What `actualizar` makes of a patch of stored user `id`: the merged user
      when it passes `validarUsuario` and its email is not another user's
      (the unique column), else the first error. */
  function CambioUsuario(id: int, patch: Usuario, usuarios: map<int, Usuario>): (r: Result<Usuario>)
    requires id in usuarios
    ensures ValidarUsuario(MergeUsuario(usuarios[id], patch)).Fail? ==>
      r == Err(ValidarUsuario(MergeUsuario(usuarios[id], patch)).error)
    ensures r.Ok? <==>
      && ValidarUsuario(MergeUsuario(usuarios[id], patch)) == Pass
      && forall k :: k in usuarios && k != id ==> usuarios[k].email != MergeUsuario(usuarios[id], patch).email
    ensures r.Ok? ==> r.value == MergeUsuario(usuarios[id], patch)
    ensures r.Err? && ValidarUsuario(MergeUsuario(usuarios[id], patch)) == Pass ==> r == Err(ConstraintViolation)
  {
    var m := MergeUsuario(usuarios[id], patch);
    match ValidarUsuario(m)
    case Fail(e) => Err(e)
    case Pass =>
      if exists k :: k in usuarios && k != id && usuarios[k].email == m.email then Err(ConstraintViolation)
      else Ok(m)
  }

  /** `actualizar`: when user `id` exists, merge the patch into it, validate,
      and save it in place; otherwise hand the patch back and store nothing. */
  method Actualizar(db: Store, patch: Usuario, id: int) returns (r: Result<Actualizacion<Usuario, Usuario>>)
    requires db.Valid()
    modifies db
    ensures db.Valid()
    ensures db.aulas == old(db.aulas) && db.horarios == old(db.horarios) && db.reservas == old(db.reservas)
    ensures db.siguienteId == old(db.siguienteId)
    ensures id !in old(db.usuarios) ==> r == Ok(SinCambios(patch)) && db.usuarios == old(db.usuarios)
    ensures id in old(db.usuarios) ==>
      var c := CambioUsuario(id, patch, old(db.usuarios));
      && (c.Err? ==> r == Err(c.error) && db.usuarios == old(db.usuarios))
      && (c.Ok? ==> r == Ok(Guardada(c.value)) && db.usuarios == old(db.usuarios)[id := c.value])
  {
    if id !in db.usuarios {
      return Ok(SinCambios(patch));
    }
    var m := MergeUsuario(db.usuarios[id], patch);
    var v := ValidarUsuario(m);
    if v.Fail? {
      return Err(v.error);
    }
    var otro := db.FindByEmail(m.email.value);
    if otro.Some? && otro.value != id {
      return Err(ConstraintViolation);
    }
    db.usuarios := db.usuarios[id := m];
    return Ok(Guardada(m));
  }

  /** `eliminarPorId`: an unknown id is an error and removes nothing;
      otherwise every booking of the user is deleted, then the user, in one
      transaction. Other users' bookings stay as they were. */
  method EliminarPorId(db: Store, id: int) returns (r: Outcome)
    requires db.Valid()
    modifies db
    ensures db.Valid()
    ensures db.aulas == old(db.aulas) && db.horarios == old(db.horarios) && db.siguienteId == old(db.siguienteId)
    ensures id !in old(db.usuarios) ==>
      r == Fail(UsuarioNoEncontrado) && db.usuarios == old(db.usuarios) && db.reservas == old(db.reservas)
    ensures id in old(db.usuarios) ==>
      && r == Pass
      && db.usuarios == old(db.usuarios) - {id}
      && db.reservas == old(db.reservas) - ReservasDeUsuario(old(db.reservas), id)
      && |db.reservas| == |old(db.reservas)| - |ReservasDeUsuario(old(db.reservas), id)|
      && (forall k :: k in old(db.reservas) ==> (k in db.reservas <==> old(db.reservas)[k].usuario != id))
      && (forall k :: k in db.reservas ==> db.reservas[k] == old(db.reservas)[k])
  {
    if id !in db.usuarios {
      return Fail(UsuarioNoEncontrado);
    }
    var lote := ReservasDeUsuario(db.reservas, id);
    BorrarLoteCuenta(db.reservas, lote);
    db.reservas := db.reservas - lote;
    db.usuarios := db.usuarios - {id};
    return Pass;
  }
}
