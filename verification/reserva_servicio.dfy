/** `ReservaServicio`: admission of new and edited bookings (date, capacity,
    overlap) and their deletion. */
module ReservaServicio {
  import opened Common
  import opened Entities
  import opened CopiarClase
  import opened Repositories

  /** The booking `validarReserva` inspects: its id (null for a new one),
      date, attendees, the room it was resolved to (id and record; null when
      the body named no room) and the stored slot it was resolved to. */
  datatype Candidata = Candidata(
    id: Option<int>,
    fecha: Option<int>,
    asistentes: Option<int>,
    aula: Option<(int, Aula)>,
    horario: Horario)

  /** Stored booking `k` blocks candidate `c`: same room, not the candidate
      itself, same date, and its slot overlaps the candidate's. */
  predicate EnConflicto(c: Candidata, k: int, horarios: map<int, Horario>, reservas: map<int, Reserva>) {
    && k in reservas
    && c.aula.Some? && reservas[k].aula == c.aula.value.0
    && c.id != Some(k)
    && c.fecha == Some(reservas[k].fecha)
    && reservas[k].horario in horarios
    && SeSolapaCon(horarios[reservas[k].horario], c.horario)
  }

  predicate HaySolapamiento(c: Candidata, horarios: map<int, Horario>, reservas: map<int, Reserva>) {
    exists k | k in reservas :: EnConflicto(c, k, horarios, reservas)
  }

  /** The date and the attendee count are set, and so are the room and its capacity. */
  predicate DatosCompletos(c: Candidata) {
    c.fecha.Some? && c.asistentes.Some? && c.aula.Some? && c.aula.value.1.capacidad.Some?
  }

  /** The checks of `validarReserva` in their order: a past date, then the
      capacity, then an overlap; the first that fails is the one reported.
      A null field met on the way throws a NullPointerException. */
  function Validar(hoy: int, c: Candidata, horarios: map<int, Horario>, reservas: map<int, Reserva>): (r: Outcome)
    ensures r == Fail(FechaPasada) <==> c.fecha.Some? && c.fecha.value < hoy
    ensures c.fecha == Some(hoy) ==> r != Fail(FechaPasada)
    ensures r == Fail(CapacidadSuperada) <==>
      DatosCompletos(c) && c.fecha.value >= hoy && c.asistentes.value > c.aula.value.1.capacidad.value
    ensures DatosCompletos(c) && c.asistentes.value == c.aula.value.1.capacidad.value ==> r != Fail(CapacidadSuperada)
    ensures r == Fail(Solapamiento) <==>
      DatosCompletos(c) && c.fecha.value >= hoy && c.asistentes.value <= c.aula.value.1.capacidad.value
      && HaySolapamiento(c, horarios, reservas)
    ensures r == Pass <==>
      DatosCompletos(c) && c.fecha.value >= hoy && c.asistentes.value <= c.aula.value.1.capacidad.value
      && !HaySolapamiento(c, horarios, reservas)
    ensures r.Fail? ==> r.error in {FechaPasada, CapacidadSuperada, Solapamiento, NullPointer}
  {
    if c.fecha.None? then Fail(NullPointer)
    else if c.fecha.value < hoy then Fail(FechaPasada)
    else if !DatosCompletos(c) then Fail(NullPointer)
    else if c.asistentes.value > c.aula.value.1.capacidad.value then Fail(CapacidadSuperada)
    else if HaySolapamiento(c, horarios, reservas) then Fail(Solapamiento)
    else Pass
  }

  /** `validarReserva`: the early checks, then a walk over the room's bookings
      that stops at the first one in conflict. */
  method ValidarReserva(db: Store, hoy: int, c: Candidata) returns (r: Outcome)
    ensures r == Validar(hoy, c, db.horarios, db.reservas)
  {
    if c.fecha.None? {
      return Fail(NullPointer);
    }
    if c.fecha.value < hoy {
      return Fail(FechaPasada);
    }
    if c.asistentes.None? || c.aula.None? || c.aula.value.1.capacidad.None? {
      return Fail(NullPointer);
    }
    if c.asistentes.value > c.aula.value.1.capacidad.value {
      return Fail(CapacidadSuperada);
    }
    var reservasAula := ReservasDeAula(db.reservas, c.aula.value.0);
    var pendientes: set<int> := reservasAula.Keys;
    ghost var vistas: set<int> := {};
    while pendientes != {}
      invariant pendientes + vistas == reservasAula.Keys
      invariant forall j :: j in vistas ==> !EnConflicto(c, j, db.horarios, db.reservas)
      decreases pendientes
    {
      var k := Elegir(pendientes);
      pendientes, vistas := pendientes - {k}, vistas + {k};
      if c.id.Some? && k == c.id.value {
        continue;
      }
      var existente := reservasAula[k];
      if existente.fecha == c.fecha.value && existente.horario in db.horarios {
        if SeSolapaCon(db.horarios[existente.horario], c.horario) {
          assert EnConflicto(c, k, db.horarios, db.reservas);
          return Fail(Solapamiento);
        }
      }
    }
    return Pass;
  }

  /** What an admitted booking `r` satisfies against the other stored
      bookings (all of them when `id` is null, all but booking `id`
      otherwise): its room and slot exist, it is not in the past, it fits the
      room, and no booking of the same room and date has an overlapping slot. */
  predicate Admisible(
    hoy: int, id: Option<int>, r: Reserva,
    aulas: map<int, Aula>, horarios: map<int, Horario>, reservas: map<int, Reserva>)
  {
    && r.aula in aulas && r.horario in horarios
    && r.fecha >= hoy
    && aulas[r.aula].capacidad.Some? && r.asistentes <= aulas[r.aula].capacidad.value
    && forall k :: k in reservas && Some(k) != id && reservas[k].aula == r.aula
         && reservas[k].fecha == r.fecha && reservas[k].horario in horarios
         ==> !SeSolapaCon(horarios[reservas[k].horario], horarios[r.horario])
  }

  /** The candidate `guardar` validates: the form, with the stored slot it
      names and, when it names one, the stored room. */
  function CandidataNueva(f: ReservaForm, aulas: map<int, Aula>, horarios: map<int, Horario>): (c: Candidata)
    requires f.horario.Some? && f.horario.value in horarios
    requires f.aula.None? || f.aula.value in aulas
    ensures c.id.None? && c.fecha == f.fecha && c.asistentes == f.asistentes
    ensures c.horario == horarios[f.horario.value]
    ensures c.aula.Some? <==> f.aula.Some?
    ensures c.aula.Some? ==> c.aula.value == (f.aula.value, aulas[f.aula.value])
  {
    var aula := if f.aula.Some? then Some((f.aula.value, aulas[f.aula.value])) else None;
    Candidata(None, f.fecha, f.asistentes, aula, horarios[f.horario.value])
  }

  /** The candidate `actualizar` validates: stored booking `id` merged with
      the patch, carrying its own id so that its row is skipped. */
  function CandidataCambio(id: int, p: ReservaForm, aulas: map<int, Aula>, horarios: map<int, Horario>, reservas: map<int, Reserva>): (c: Candidata)
    requires id in reservas
    requires MergeReserva(reservas[id], p).aula in aulas && MergeReserva(reservas[id], p).horario in horarios
    ensures c.id == Some(id)
    ensures c.fecha == Some(p.fecha.GetOr(reservas[id].fecha))
    ensures c.asistentes == Some(p.asistentes.GetOr(reservas[id].asistentes))
    ensures c.aula.Some? && c.aula.value.0 == p.aula.GetOr(reservas[id].aula)
    ensures c.aula.value.1 == aulas[c.aula.value.0]
    ensures c.horario == horarios[p.horario.GetOr(reservas[id].horario)]
  {
    var m := MergeReserva(reservas[id], p);
    Candidata(Some(id), Some(m.fecha), Some(m.asistentes), Some((m.aula, aulas[m.aula])), horarios[m.horario])
  }

  /** What `guardar` makes of a new booking: the record it saves (with the
      stored slot and room it resolved and the insert timestamp), or the
      first error. */
  function AdmitirNueva(
    hoy: int, ahora: int, f: ReservaForm,
    aulas: map<int, Aula>, horarios: map<int, Horario>,
    usuarios: map<int, Usuario>, reservas: map<int, Reserva>): (r: Result<Reserva>)
    ensures f.horario.None? ==> r == Err(HorarioRequerido)
    ensures f.horario.Some? && f.horario.value !in horarios ==> r == Err(HorarioNoEncontrado)
    ensures f.horario.Some? && f.horario.value in horarios ==>
      (f.aula.Some? && f.aula.value !in aulas ==> r == Err(AulaNoEncontrada))
    ensures f.horario.Some? && f.horario.value in horarios && (f.aula.None? || f.aula.value in aulas) ==>
      var v := Validar(hoy, CandidataNueva(f, aulas, horarios), horarios, reservas);
      && (v.Fail? ==> r == Err(v.error))
      && (v == Pass && (f.usuario.None? || f.usuario.value !in usuarios) ==> r == Err(ConstraintViolation))
    ensures r.Ok? ==>
      && f.fecha.Some? && f.asistentes.Some? && f.aula.Some? && f.horario.Some? && f.usuario.Some?
      && r.value == Reserva(f.fecha.value, f.motivo, f.asistentes.value, ahora,
                            f.aula.value, f.horario.value, f.usuario.value)
      && Admisible(hoy, None, r.value, aulas, horarios, reservas)
      && r.value.usuario in usuarios
    ensures
      (&& f.fecha.Some? && f.asistentes.Some? && f.aula.Some? && f.horario.Some? && f.usuario.Some?
       && f.usuario.value in usuarios
       && Admisible(hoy, None, Reserva(f.fecha.value, f.motivo, f.asistentes.value, ahora,
                                       f.aula.value, f.horario.value, f.usuario.value),
                    aulas, horarios, reservas))
      ==> r.Ok?
  {
    if f.horario.None? then Err(HorarioRequerido)
    else if f.horario.value !in horarios then Err(HorarioNoEncontrado)
    else if f.aula.Some? && f.aula.value !in aulas then Err(AulaNoEncontrada)
    else
      var c := CandidataNueva(f, aulas, horarios);
      match Validar(hoy, c, horarios, reservas)
      case Fail(e) => Err(e)
      case Pass =>
        if f.usuario.None? || f.usuario.value !in usuarios then Err(ConstraintViolation)
        else
          var r := Reserva(f.fecha.value, f.motivo, f.asistentes.value, ahora,
                           f.aula.value, f.horario.value, f.usuario.value);
          assert !HaySolapamiento(c, horarios, reservas);
          Ok(r)
  }

  /** What `actualizar` makes of an edit of stored booking `id`: the patch
      merged into the stored record, its slot and room references checked,
      the merged booking validated with its own id skipped, then saved. */
  function AdmitirCambio(
    hoy: int, id: int, p: ReservaForm,
    aulas: map<int, Aula>, horarios: map<int, Horario>,
    usuarios: map<int, Usuario>, reservas: map<int, Reserva>): (r: Result<Reserva>)
    requires id in reservas && reservas[id].aula in aulas && reservas[id].horario in horarios
    ensures p.horario.Some? && p.horario.value !in horarios ==> r == Err(HorarioNoEncontrado)
    ensures p.horario.None? || p.horario.value in horarios ==>
      (p.aula.Some? && p.aula.value !in aulas ==> r == Err(AulaNoEncontradaId))
    ensures (p.horario.None? || p.horario.value in horarios) && (p.aula.None? || p.aula.value in aulas) ==>
      var v := Validar(hoy, CandidataCambio(id, p, aulas, horarios, reservas), horarios, reservas);
      && (v.Fail? ==> r == Err(v.error))
      && (v == Pass && MergeReserva(reservas[id], p).usuario !in usuarios ==> r == Err(ConstraintViolation))
    ensures r.Ok? ==>
      && r.value == MergeReserva(reservas[id], p)
      && Admisible(hoy, Some(id), r.value, aulas, horarios, reservas)
      && r.value.usuario in usuarios
    ensures
      (&& Admisible(hoy, Some(id), MergeReserva(reservas[id], p), aulas, horarios, reservas)
       && MergeReserva(reservas[id], p).usuario in usuarios)
      ==> r.Ok?
  {
    var m := MergeReserva(reservas[id], p);
    if p.horario.Some? && p.horario.value !in horarios then Err(HorarioNoEncontrado)
    else if p.aula.Some? && p.aula.value !in aulas then Err(AulaNoEncontradaId)
    else
      var c := CandidataCambio(id, p, aulas, horarios, reservas);
      match Validar(hoy, c, horarios, reservas)
      case Fail(e) => Err(e)
      case Pass =>
        if m.usuario !in usuarios then Err(ConstraintViolation)
        else
          assert !HaySolapamiento(c, horarios, reservas);
          Ok(m)
  }

  /** Admission never checks the declared attendee constraint: a booking
      for no attendees (or fewer) is admitted whenever it is otherwise
      admissible, on create and on edit alike. */
  lemma AdmisionNoExigeAsistentesPositivos(
    hoy: int, ahora: int, f: ReservaForm, id: int, p: ReservaForm,
    aulas: map<int, Aula>, horarios: map<int, Horario>,
    usuarios: map<int, Usuario>, reservas: map<int, Reserva>)
    ensures
      (&& f.fecha.Some? && f.asistentes.Some? && f.aula.Some? && f.horario.Some? && f.usuario.Some?
       && f.usuario.value in usuarios && f.asistentes.value <= 0
       && Admisible(hoy, None, Reserva(f.fecha.value, f.motivo, f.asistentes.value, ahora,
                                       f.aula.value, f.horario.value, f.usuario.value),
                    aulas, horarios, reservas))
      ==> && AdmitirNueva(hoy, ahora, f, aulas, horarios, usuarios, reservas).Ok?
          && !ReservaCumpleRestricciones(AdmitirNueva(hoy, ahora, f, aulas, horarios, usuarios, reservas).value)
    ensures
      (&& id in reservas && reservas[id].aula in aulas && reservas[id].horario in horarios
       && Admisible(hoy, Some(id), MergeReserva(reservas[id], p), aulas, horarios, reservas)
       && MergeReserva(reservas[id], p).usuario in usuarios
       && MergeReserva(reservas[id], p).asistentes <= 0)
      ==> && AdmitirCambio(hoy, id, p, aulas, horarios, usuarios, reservas).Ok?
          && !ReservaCumpleRestricciones(AdmitirCambio(hoy, id, p, aulas, horarios, usuarios, reservas).value)
  {
  }

  /** No two stored bookings of the same room and date have overlapping slots. */
  predicate SinSolapamientos(horarios: map<int, Horario>, reservas: map<int, Reserva>) {
    forall j, k :: j in reservas && k in reservas && j != k
      && reservas[j].aula == reservas[k].aula && reservas[j].fecha == reservas[k].fecha
      && reservas[j].horario in horarios && reservas[k].horario in horarios
      ==> !SeSolapaCon(horarios[reservas[j].horario], horarios[reservas[k].horario])
  }

  /** Saving a booking `guardar` admits under a fresh id keeps the bookings
      free of overlaps. */
  lemma AdmitirNuevaPreservaSinSolapamientos(
    hoy: int, ahora: int, f: ReservaForm, nuevo: int,
    aulas: map<int, Aula>, horarios: map<int, Horario>,
    usuarios: map<int, Usuario>, reservas: map<int, Reserva>)
    requires SinSolapamientos(horarios, reservas)
    requires nuevo !in reservas
    requires AdmitirNueva(hoy, ahora, f, aulas, horarios, usuarios, reservas).Ok?
    ensures SinSolapamientos(horarios, reservas[nuevo := AdmitirNueva(hoy, ahora, f, aulas, horarios, usuarios, reservas).value])
  {
    var r := AdmitirNueva(hoy, ahora, f, aulas, horarios, usuarios, reservas).value;
    var nuevas := reservas[nuevo := r];
    forall j, k | j in nuevas && k in nuevas && j != k
      && nuevas[j].aula == nuevas[k].aula && nuevas[j].fecha == nuevas[k].fecha
      && nuevas[j].horario in horarios && nuevas[k].horario in horarios
      ensures !SeSolapaCon(horarios[nuevas[j].horario], horarios[nuevas[k].horario])
    {
      if k == nuevo {
        assert !SeSolapaCon(horarios[reservas[j].horario], horarios[r.horario]);
        SeSolapaConSimetrico(horarios[reservas[j].horario], horarios[r.horario]);
      }
    }
  }

  /** Saving an edit `actualizar` admits keeps the bookings free of overlaps. */
  lemma AdmitirCambioPreservaSinSolapamientos(
    hoy: int, id: int, p: ReservaForm,
    aulas: map<int, Aula>, horarios: map<int, Horario>,
    usuarios: map<int, Usuario>, reservas: map<int, Reserva>)
    requires id in reservas && reservas[id].aula in aulas && reservas[id].horario in horarios
    requires SinSolapamientos(horarios, reservas)
    requires AdmitirCambio(hoy, id, p, aulas, horarios, usuarios, reservas).Ok?
    ensures SinSolapamientos(horarios, reservas[id := AdmitirCambio(hoy, id, p, aulas, horarios, usuarios, reservas).value])
  {
    var r := AdmitirCambio(hoy, id, p, aulas, horarios, usuarios, reservas).value;
    var nuevas := reservas[id := r];
    forall j, k | j in nuevas && k in nuevas && j != k
      && nuevas[j].aula == nuevas[k].aula && nuevas[j].fecha == nuevas[k].fecha
      && nuevas[j].horario in horarios && nuevas[k].horario in horarios
      ensures !SeSolapaCon(horarios[nuevas[j].horario], horarios[nuevas[k].horario])
    {
      if k == id {
        assert !SeSolapaCon(horarios[reservas[j].horario], horarios[r.horario]);
        SeSolapaConSimetrico(horarios[reservas[j].horario], horarios[r.horario]);
      }
    }
  }

  /** Re-submitting a stored booking without moving it (the patch leaves the
      date, room and slot unset or sends back the stored ones) never reports an overlap when the stored
      bookings are free of overlaps: the booking's own row is skipped. */
  lemma EdicionSinMoverNoSeSolapa(
    hoy: int, id: int, p: ReservaForm,
    aulas: map<int, Aula>, horarios: map<int, Horario>,
    usuarios: map<int, Usuario>, reservas: map<int, Reserva>)
    requires id in reservas && reservas[id].aula in aulas && reservas[id].horario in horarios
    requires SinSolapamientos(horarios, reservas)
    requires p.fecha.GetOr(reservas[id].fecha) == reservas[id].fecha
    requires p.aula.GetOr(reservas[id].aula) == reservas[id].aula
    requires p.horario.GetOr(reservas[id].horario) == reservas[id].horario
    ensures AdmitirCambio(hoy, id, p, aulas, horarios, usuarios, reservas) != Err(Solapamiento)
  {
  }

  /** `guardar`: resolve the slot (required) and the room, validate, and save
      the booking under the next id with `ahora` as its creation timestamp.
      On any error the store is left as it was. */
  method Guardar(db: Store, f: ReservaForm, hoy: int, ahora: int) returns (r: Result<int>)
    requires db.Valid()
    modifies db
    ensures db.Valid()
    ensures db.aulas == old(db.aulas) && db.horarios == old(db.horarios) && db.usuarios == old(db.usuarios)
    ensures var a := AdmitirNueva(hoy, ahora, f, old(db.aulas), old(db.horarios), old(db.usuarios), old(db.reservas));
      && (a.Err? ==> r == Err(a.error) && db.reservas == old(db.reservas) && db.siguienteId == old(db.siguienteId))
      && (a.Ok? ==>
            && r == Ok(old(db.siguienteId))
            && old(db.siguienteId) !in old(db.reservas)
            && db.reservas == old(db.reservas)[old(db.siguienteId) := a.value]
            && db.siguienteId == old(db.siguienteId) + 1)
  {
    if f.horario.None? {
      return Err(HorarioRequerido);
    }
    if f.horario.value !in db.horarios {
      return Err(HorarioNoEncontrado);
    }
    var horario := db.horarios[f.horario.value];
    var aula: Option<(int, Aula)> := None;
    if f.aula.Some? {
      if f.aula.value !in db.aulas {
        return Err(AulaNoEncontrada);
      }
      aula := Some((f.aula.value, db.aulas[f.aula.value]));
    }
    var v := ValidarReserva(db, hoy, Candidata(None, f.fecha, f.asistentes, aula, horario));
    if v.Fail? {
      return Err(v.error);
    }
    if f.usuario.None? || f.usuario.value !in db.usuarios {
      return Err(ConstraintViolation);
    }
    var id := db.siguienteId;
    db.reservas := db.reservas[id := Reserva(f.fecha.value, f.motivo, f.asistentes.value, ahora,
                                             f.aula.value, f.horario.value, f.usuario.value)];
    db.siguienteId := id + 1;
    return Ok(id);
  }

  /** `actualizar`: when booking `id` exists, merge the patch into it, check
      the slot and room the patch names, validate the result against the
      other bookings and save it in place; otherwise hand the patch back and
      store nothing. */
  method Actualizar(db: Store, p: ReservaForm, id: int, hoy: int) returns (r: Result<Actualizacion<Reserva, ReservaForm>>)
    requires db.Valid()
    modifies db
    ensures db.Valid()
    ensures db.aulas == old(db.aulas) && db.horarios == old(db.horarios) && db.usuarios == old(db.usuarios)
    ensures db.siguienteId == old(db.siguienteId)
    ensures id !in old(db.reservas) ==> r == Ok(SinCambios(p)) && db.reservas == old(db.reservas)
    ensures id in old(db.reservas) ==>
      var a := AdmitirCambio(hoy, id, p, old(db.aulas), old(db.horarios), old(db.usuarios), old(db.reservas));
      && (a.Err? ==> r == Err(a.error) && db.reservas == old(db.reservas))
      && (a.Ok? ==> r == Ok(Guardada(a.value)) && db.reservas == old(db.reservas)[id := a.value])
  {
    if id !in db.reservas {
      return Ok(SinCambios(p));
    }
    var m := MergeReserva(db.reservas[id], p);
    if p.horario.Some? && p.horario.value !in db.horarios {
      return Err(HorarioNoEncontrado);
    }
    if p.aula.Some? && p.aula.value !in db.aulas {
      return Err(AulaNoEncontradaId);
    }
    var c := Candidata(Some(id), Some(m.fecha), Some(m.asistentes), Some((m.aula, db.aulas[m.aula])), db.horarios[m.horario]);
    var v := ValidarReserva(db, hoy, c);
    if v.Fail? {
      return Err(v.error);
    }
    if m.usuario !in db.usuarios {
      return Err(ConstraintViolation);
    }
    db.reservas := db.reservas[id := m];
    return Ok(Guardada(m));
  }

  /** `eliminarPorId`: an unknown id is an error and removes nothing;
      otherwise exactly that booking is removed. */
  method EliminarPorId(db: Store, id: int) returns (r: Outcome)
    requires db.Valid()
    modifies db
    ensures db.Valid()
    ensures db.aulas == old(db.aulas) && db.horarios == old(db.horarios) && db.usuarios == old(db.usuarios)
    ensures db.siguienteId == old(db.siguienteId)
    ensures id !in old(db.reservas) ==> r == Fail(ReservaNoEncontrada) && db.reservas == old(db.reservas)
    ensures id in old(db.reservas) ==> r == Pass && db.reservas == old(db.reservas) - {id}
  {
    if id !in db.reservas {
      return Fail(ReservaNoEncontrada);
    }
    db.reservas := db.reservas - {id};
    return Pass;
  }
}
