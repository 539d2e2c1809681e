/** The null-skipping partial merge every `actualizar` applies: each property
    of the patch that is not null overwrites the destination's, each null one
    leaves it alone. The reflective bean copy is written out entity by entity. */
module CopiarClase {
  import opened Common
  import opened Entities

  /** `copyProperty` on a field the destination always holds. */
  function CopyProperty<T>(dest: T, value: Option<T>): (r: T)
    ensures value.Some? ==> r == value.value
    ensures value.None? ==> r == dest
  {
    match value
    case Some(v) => v
    case None => dest
  }

  /** `copyProperty` on a nullable field of the destination. */
  function CopyNullable<T>(dest: Option<T>, value: Option<T>): (r: Option<T>)
    ensures value.Some? ==> r == value
    ensures value.None? ==> r == dest
  {
    if value.Some? then value else dest
  }

  /** `copyProperties(aula, patch)`. */
  function MergeAula(dest: Aula, patch: Aula): Aula {
    Aula(
      CopyNullable(dest.nombre, patch.nombre),
      CopyNullable(dest.capacidad, patch.capacidad),
      CopyNullable(dest.esOrdenadores, patch.esOrdenadores))
  }

  /** `copyProperties(reserva, patch)`: every property, the creation
      timestamp included, follows the null-skip rule. */
  function MergeReserva(dest: Reserva, patch: ReservaForm): Reserva {
    Reserva(
      CopyProperty(dest.fecha, patch.fecha),
      CopyNullable(dest.motivo, patch.motivo),
      CopyProperty(dest.asistentes, patch.asistentes),
      CopyProperty(dest.fechaCreacion, patch.fechaCreacion),
      CopyProperty(dest.aula, patch.aula),
      CopyProperty(dest.horario, patch.horario),
      CopyProperty(dest.usuario, patch.usuario))
  }

  /** `copyProperties(usuario, patch)`: `enabled` is a primitive, never null,
      so it is always copied. */
  function MergeUsuario(dest: Usuario, patch: Usuario): Usuario {
    Usuario(
      CopyNullable(dest.nombre, patch.nombre),
      CopyNullable(dest.rol, patch.rol),
      CopyNullable(dest.email, patch.email),
      CopyNullable(dest.password, patch.password),
      patch.enabled)
  }

  /** The patches with every property null. */
  const AulaVacia: Aula := Aula(None, None, None)
  const ReservaVacia: ReservaForm := ReservaForm(None, None, None, None, None, None, None)

  /** After a room merge each field is the patch's when the patch sets it and
      the old one otherwise; an all-null patch changes nothing; merging the
      same patch twice is merging it once. */
  lemma MergeAulaPropiedades(dest: Aula, patch: Aula)
    ensures patch.nombre.Some? ==> MergeAula(dest, patch).nombre == patch.nombre
    ensures patch.nombre.None? ==> MergeAula(dest, patch).nombre == dest.nombre
    ensures patch.capacidad.Some? ==> MergeAula(dest, patch).capacidad == patch.capacidad
    ensures patch.capacidad.None? ==> MergeAula(dest, patch).capacidad == dest.capacidad
    ensures patch.esOrdenadores.Some? ==> MergeAula(dest, patch).esOrdenadores == patch.esOrdenadores
    ensures patch.esOrdenadores.None? ==> MergeAula(dest, patch).esOrdenadores == dest.esOrdenadores
    ensures MergeAula(dest, AulaVacia) == dest
    ensures MergeAula(MergeAula(dest, patch), patch) == MergeAula(dest, patch)
  {
  }

  /** The same three facts for a booking merge; a patch that leaves the
      creation timestamp out keeps the stored one. */
  lemma MergeReservaPropiedades(dest: Reserva, patch: ReservaForm)
    ensures MergeReserva(dest, patch).fecha == patch.fecha.GetOr(dest.fecha)
    ensures MergeReserva(dest, patch).motivo == (if patch.motivo.Some? then patch.motivo else dest.motivo)
    ensures MergeReserva(dest, patch).asistentes == patch.asistentes.GetOr(dest.asistentes)
    ensures MergeReserva(dest, patch).aula == patch.aula.GetOr(dest.aula)
    ensures MergeReserva(dest, patch).horario == patch.horario.GetOr(dest.horario)
    ensures MergeReserva(dest, patch).usuario == patch.usuario.GetOr(dest.usuario)
    ensures MergeReserva(dest, patch).fechaCreacion == patch.fechaCreacion.GetOr(dest.fechaCreacion)
    ensures MergeReserva(dest, ReservaVacia) == dest
    ensures MergeReserva(MergeReserva(dest, patch), patch) == MergeReserva(dest, patch)
  {
  }

  /** A user merge: the nullable fields follow the same rule and `enabled` is
      always the patch's. A request body that leaves `enabled` out is built by
      `new Usuario()` and so carries `true`: an otherwise empty patch keeps
      every field and re-enables the account. Merging twice is merging once. */
  lemma MergeUsuarioPropiedades(dest: Usuario, patch: Usuario)
    ensures MergeUsuario(dest, patch).nombre == (if patch.nombre.Some? then patch.nombre else dest.nombre)
    ensures MergeUsuario(dest, patch).rol == (if patch.rol.Some? then patch.rol else dest.rol)
    ensures MergeUsuario(dest, patch).email == (if patch.email.Some? then patch.email else dest.email)
    ensures MergeUsuario(dest, patch).password == (if patch.password.Some? then patch.password else dest.password)
    ensures MergeUsuario(dest, patch).enabled == patch.enabled
    ensures MergeUsuario(dest, Usuario(None, None, None, None, dest.enabled)) == dest
    ensures MergeUsuario(dest, NuevoUsuario) == dest.(enabled := true)
    ensures MergeUsuario(MergeUsuario(dest, patch), patch) == MergeUsuario(dest, patch)
  {
  }
}
