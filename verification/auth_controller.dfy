/** `AuthController.register`: the two checks made before a user is created
    (email not taken, then a recognised role) and the user it creates. */
module AuthController {
  import opened Common
  import opened Entities
  import opened Repositories
  import UsuarioService

  /** The registration body. Its fields are non-blank by the time the
      endpoint runs (the request body is validated first). */
  datatype RegisterRequest = RegisterRequest(email: string, password: string, rol: string)

  const MensajeEmailRegistrado: string := "El email ya está registrado"

  /** The user `register` saves: email and role as sent, the password as
      `encode` makes it, enabled, and no name. */
  function NuevoRegistrado(req: RegisterRequest, encode: string -> string): (u: Usuario)
    ensures GetUsername(u) == Some(req.email) && u.rol == Some(req.rol)
    ensures u.password == Some(encode(req.password)) && IsEnabled(u) && u.nombre.None?
  {
    NuevoUsuario.(email := Some(req.email), password := Some(encode(req.password)), rol := Some(req.rol), enabled := true)
  }

  /** `register`: an email that is already registered is refused first,
      then a role other than the two recognised strings; otherwise exactly
      one user is added, under the next id. */
  method Register(db: Store, req: RegisterRequest, encode: string -> string) returns (resp: Response<()>)
    requires db.Valid()
    modifies db
    ensures db.Valid()
    ensures db.aulas == old(db.aulas) && db.horarios == old(db.horarios) && db.reservas == old(db.reservas)
    ensures EmailRegistrado(old(db.usuarios), req.email) ==> resp == Status400(MensajeEmailRegistrado)
    ensures !EmailRegistrado(old(db.usuarios), req.email) && !RolReconocido(req.rol) ==>
      resp == Status400(RolInvalido.Message())
    ensures resp == Status201 <==> !EmailRegistrado(old(db.usuarios), req.email) && RolReconocido(req.rol)
    ensures resp != Status201 ==> db.usuarios == old(db.usuarios) && db.siguienteId == old(db.siguienteId)
    ensures resp == Status201 ==>
      && old(db.siguienteId) !in old(db.usuarios)
      && db.usuarios == old(db.usuarios)[old(db.siguienteId) := NuevoRegistrado(req, encode)]
      && db.siguienteId == old(db.siguienteId) + 1
  {
    var existente := db.FindByEmail(req.email);
    if existente.Some? {
      return Status400(MensajeEmailRegistrado);
    }
    if req.rol != ROLE_ADMIN && req.rol != ROLE_PROFESOR {
      return Status400(RolInvalido.Message());
    }
    var id := db.siguienteId;
    db.usuarios := db.usuarios[id := NuevoRegistrado(req, encode)];
    db.siguienteId := id + 1;
    return Status201;
  }

  /** A registered user has no name: it does not meet the user's declared
      constraints, and `validarUsuario` refuses it until a patch sets one. */
  lemma RegistradoSinNombre(req: RegisterRequest, encode: string -> string)
    ensures !UsuarioCumpleRestricciones(NuevoRegistrado(req, encode))
    ensures UsuarioService.ValidarUsuario(NuevoRegistrado(req, encode)) == Fail(NombreObligatorio)
  {
  }
}
