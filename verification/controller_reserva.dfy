/** `ControllerReserva`: the booking endpoints. A principal that holds
    `ROLE_ADMIN` may delete or edit any booking; anyone else only the
    bookings they own. The owner of a created or edited booking is always
    the principal making the request. */
module ControllerReserva {
  import opened Common
  import opened Entities
  import opened Repositories
  import opened CopiarClase
  import ReservaServicio

  /** The authenticated principal: its name (the user's email) and the
      authority strings it holds. */
  datatype Principal = Principal(email: string, authorities: seq<string>)

  /** The admin test: some authority is exactly `ROLE_ADMIN`. */
  predicate EsAdmin(p: Principal) {
    ROLE_ADMIN in p.authorities
  }

  const MensajeNoBorrar: string :=
    "No tienes permiso para eliminar esta reserva. Solo puedes eliminar tus propias reservas."
  const MensajeNoEditar: string :=
    "No tienes permiso para editar esta reserva. Solo puedes editar tus propias reservas."

  /** `p` owns stored booking `id`: the booking's user has `p`'s email. */
  predicate EsPropietario(p: Principal, id: int, usuarios: map<int, Usuario>, reservas: map<int, Reserva>) {
    id in reservas && reservas[id].usuario in usuarios && usuarios[reservas[id].usuario].email == Some(p.email)
  }

  /** The exception a service threw, as the endpoint answers it: an
      `IllegalArgumentException` becomes 400 with its message, anything else
      escapes as 500. */
  function Respuesta<T>(e: Error): (r: Response<T>)
    ensures e.IsIllegalArgument() ==> r == Status400(e.Message())
    ensures !e.IsIllegalArgument() ==> r == Status500
  {
    if e.IsIllegalArgument() then Status400(e.Message()) else Status500
  }

  /** `deleteReservaPorId`: a non-admin must own the booking (400 when it
      does not exist, 403 when someone else owns it); then the booking is
      deleted. */
  method DeleteReservaPorId(db: Store, id: int, p: Principal) returns (resp: Response<()>)
    requires db.Valid()
    modifies db
    ensures db.Valid()
    ensures db.aulas == old(db.aulas) && db.horarios == old(db.horarios) && db.usuarios == old(db.usuarios)
    ensures resp == Status204 <==> id in old(db.reservas) && (EsAdmin(p) || EsPropietario(p, id, old(db.usuarios), old(db.reservas)))
    ensures resp == Status204 ==> db.reservas == old(db.reservas) - {id}
    ensures resp != Status204 ==> db.reservas == old(db.reservas)
    ensures id !in old(db.reservas) ==> resp == Status400(ReservaNoEncontrada.Message())
    ensures !EsAdmin(p) && id in old(db.reservas) && !EsPropietario(p, id, old(db.usuarios), old(db.reservas)) ==>
      resp == Status403(MensajeNoBorrar)
  {
    if !EsAdmin(p) {
      if id !in db.reservas {
        return Status400(ReservaNoEncontrada.Message());
      }
      var reserva := db.reservas[id];
      if db.usuarios[reserva.usuario].email != Some(p.email) {
        return Status403(MensajeNoBorrar);
      }
    }
    var r := ReservaServicio.EliminarPorId(db, id);
    if r.Fail? {
      return Respuesta(r.error);
    }
    return Status204;
  }

  /** `createReserva`: the booking's user is set to the principal's user
      (400 when the principal's email names no user), whatever the body
      said, then the booking is saved; the answer carries the saved booking. */
  method CreateReserva(db: Store, f: ReservaForm, p: Principal, hoy: int, ahora: int) returns (resp: Response<Reserva>)
    requires db.Valid()
    modifies db
    ensures db.Valid()
    ensures db.aulas == old(db.aulas) && db.horarios == old(db.horarios) && db.usuarios == old(db.usuarios)
    ensures !EmailRegistrado(old(db.usuarios), p.email) ==>
      resp == Status400(UsuarioAutenticadoNoEncontrado.Message()) && db.reservas == old(db.reservas)
    ensures resp.Status200? ==>
      && old(db.siguienteId) !in old(db.reservas)
      && db.reservas == old(db.reservas)[old(db.siguienteId) := resp.body]
      && resp.body.usuario in db.usuarios && db.usuarios[resp.body.usuario].email == Some(p.email)
      && Some(resp.body.fecha) == f.fecha && Some(resp.body.asistentes) == f.asistentes
      && Some(resp.body.aula) == f.aula && Some(resp.body.horario) == f.horario
      && resp.body.motivo == f.motivo && resp.body.fechaCreacion == ahora
    ensures !resp.Status200? ==> db.reservas == old(db.reservas)
    ensures forall u | u in old(db.usuarios) && old(db.usuarios)[u].email == Some(p.email) ::
      var a := ReservaServicio.AdmitirNueva(hoy, ahora, f.(usuario := Some(u)),
                                            old(db.aulas), old(db.horarios), old(db.usuarios), old(db.reservas));
      && (a.Err? ==> resp == Respuesta(a.error))
      && (a.Ok? ==> resp == Status200(a.value))
  {
    var usuario := db.FindByEmail(p.email);
    if usuario.None? {
      return Status400(UsuarioAutenticadoNoEncontrado.Message());
    }
    var conDueno := f.(usuario := Some(usuario.value));
    ghost var a := ReservaServicio.AdmitirNueva(hoy, ahora, conDueno, db.aulas, db.horarios, db.usuarios, db.reservas);
    var r := ReservaServicio.Guardar(db, conDueno, hoy, ahora);
    if r.Err? {
      return Respuesta(r.error);
    }
    assert a.Ok? && db.reservas[r.value] == a.value;
    return Status200(db.reservas[r.value]);
  }

  /** `updateReserva`: a non-admin must own the booking (400 when it does
      not exist, 403 when someone else owns it); the patch's user is then
      set to the principal's user, so an admin's edit hands the booking to
      the admin, and the patch is applied to booking `id`. */
  method UpdateReserva(db: Store, patch: ReservaForm, id: int, p: Principal, hoy: int)
    returns (resp: Response<Actualizacion<Reserva, ReservaForm>>)
    requires db.Valid()
    modifies db
    ensures db.Valid()
    ensures db.aulas == old(db.aulas) && db.horarios == old(db.horarios) && db.usuarios == old(db.usuarios)
    ensures !EsAdmin(p) && id !in old(db.reservas) ==>
      resp == Status400(ReservaNoEncontrada.Message()) && db.reservas == old(db.reservas)
    ensures !EsAdmin(p) && id in old(db.reservas) && !EsPropietario(p, id, old(db.usuarios), old(db.reservas)) ==>
      resp == Status403(MensajeNoEditar) && db.reservas == old(db.reservas)
    ensures (EsAdmin(p) || EsPropietario(p, id, old(db.usuarios), old(db.reservas))) && !EmailRegistrado(old(db.usuarios), p.email) ==>
      resp == Status400(UsuarioAutenticadoNoEncontrado.Message())
    ensures !resp.Status200? || resp.body.SinCambios? ==> db.reservas == old(db.reservas)
    ensures resp.Status200? && resp.body.Guardada? ==>
      && id in old(db.reservas)
      && (EsAdmin(p) || EsPropietario(p, id, old(db.usuarios), old(db.reservas)))
      && db.reservas == old(db.reservas)[id := resp.body.valor]
      && resp.body.valor.usuario in db.usuarios && db.usuarios[resp.body.valor.usuario].email == Some(p.email)
    ensures (EsAdmin(p) || EsPropietario(p, id, old(db.usuarios), old(db.reservas))) ==>
      forall u | u in old(db.usuarios) && old(db.usuarios)[u].email == Some(p.email) ::
        && (id !in old(db.reservas) ==> resp == Status200(SinCambios(patch.(usuario := Some(u)))))
        && (id in old(db.reservas) ==>
              var a := ReservaServicio.AdmitirCambio(hoy, id, patch.(usuario := Some(u)),
                                                     old(db.aulas), old(db.horarios), old(db.usuarios), old(db.reservas));
              && (a.Err? ==> resp == Respuesta(a.error))
              && (a.Ok? ==> resp == Status200(Guardada(a.value))
                            && a.value == MergeReserva(old(db.reservas)[id], patch.(usuario := Some(u)))))
  {
    if !EsAdmin(p) {
      if id !in db.reservas {
        return Status400(ReservaNoEncontrada.Message());
      }
      var existente := db.reservas[id];
      if db.usuarios[existente.usuario].email != Some(p.email) {
        return Status403(MensajeNoEditar);
      }
    }
    var usuario := db.FindByEmail(p.email);
    if usuario.None? {
      return Status400(UsuarioAutenticadoNoEncontrado.Message());
    }
    assert forall u | u in db.usuarios && db.usuarios[u].email == Some(p.email) :: u == usuario.value;
    var conDueno := patch.(usuario := Some(usuario.value));
    var r := ReservaServicio.Actualizar(db, conDueno, id, hoy);
    if r.Err? {
      return Respuesta(r.error);
    }
    return Status200(r.value);
  }
}
