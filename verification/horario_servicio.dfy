/** `HorarioServicio`: saving a weekly slot after checking its times, and
    deleting a slot together with every booking that uses it. */
module HorarioServicio {
  import opened Common
  import opened Entities
  import opened Repositories
  import opened ReservaServicio

  /** The checks `guardar` runs before saving: both times present, then the
      end strictly after the start. */
  function ValidarHorario(f: HorarioForm): (r: Result<Horario>)
    ensures r == Err(HorasRequeridas) <==> f.horaInicio.None? || f.horaFin.None?
    ensures r == Err(FinNoPosterior) <==>
      f.horaInicio.Some? && f.horaFin.Some? && f.horaFin.value <= f.horaInicio.value
    ensures r.Ok? <==> f.horaInicio.Some? && f.horaFin.Some? && f.horaInicio.value < f.horaFin.value
    ensures r.Ok? ==>
      && r.value.diaSemana == f.diaSemana
      && r.value.horaInicio == f.horaInicio.value && r.value.horaFin == f.horaFin.value
      && r.value.horaInicio < r.value.horaFin
  {
    if f.horaFin.None? || f.horaInicio.None? then Err(HorasRequeridas)
    else if !(f.horaFin.value > f.horaInicio.value) then Err(FinNoPosterior)
    else Ok(Horario(f.diaSemana, f.horaInicio.value, f.horaFin.value))
  }

  /** A slot whose start equals its end is rejected, and so is any slot
      with a reversed interval; a proper interval is accepted as it is, and
      the check does not look at the day, which may be missing. */
  lemma ValidarHorarioRechazaVacios(dia: Option<DiaSemana>, inicio: int, fin: int)
    ensures fin <= inicio ==> ValidarHorario(HorarioForm(dia, Some(inicio), Some(fin))) == Err(FinNoPosterior)
    ensures ValidarHorario(HorarioForm(dia, Some(inicio), Some(inicio))) == Err(FinNoPosterior)
    ensures inicio < fin ==> ValidarHorario(HorarioForm(dia, Some(inicio), Some(fin))) == Ok(Horario(dia, inicio, fin))
    ensures inicio < fin ==> !HorarioCumpleRestricciones(ValidarHorario(HorarioForm(None, Some(inicio), Some(fin))).value)
  {
  }

  /** `guardar`: validate, then save. With no id the slot is inserted under
      the next id; with the id of a stored slot it overwrites that slot, and
      every booking using it sees the new times. Nothing is saved when a
      check fails. */
  method Guardar(db: Store, f: HorarioForm, id: Option<int>) returns (r: Result<int>)
    requires db.Valid()
    requires id.None? || id.value in db.horarios
    modifies db
    ensures db.Valid()
    ensures db.aulas == old(db.aulas) && db.usuarios == old(db.usuarios) && db.reservas == old(db.reservas)
    ensures ValidarHorario(f).Err? ==>
      r == Err(ValidarHorario(f).error) && db.horarios == old(db.horarios) && db.siguienteId == old(db.siguienteId)
    ensures ValidarHorario(f).Ok? && id.Some? ==>
      && r == Ok(id.value)
      && db.horarios == old(db.horarios)[id.value := ValidarHorario(f).value]
      && db.siguienteId == old(db.siguienteId)
    ensures ValidarHorario(f).Ok? && id.None? ==>
      && r == Ok(old(db.siguienteId))
      && old(db.siguienteId) !in old(db.horarios)
      && db.horarios == old(db.horarios)[old(db.siguienteId) := ValidarHorario(f).value]
      && db.siguienteId == old(db.siguienteId) + 1
  {
    var v := ValidarHorario(f);
    if v.Err? {
      return Err(v.error);
    }
    if id.Some? {
      db.horarios := db.horarios[id.value := v.value];
      return Ok(id.value);
    }
    var nuevo := db.siguienteId;
    db.horarios := db.horarios[nuevo := v.value];
    db.siguienteId := nuevo + 1;
    return Ok(nuevo);
  }

  /** `eliminar`: a null slot (or a slot without id) is rejected and nothing
      changes; otherwise every booking that uses the slot is deleted, then
      the slot itself, in one transaction. Bookings of other slots stay as
      they were. */
  method Eliminar(db: Store, h: Option<int>) returns (r: Outcome)
    requires db.Valid()
    modifies db
    ensures db.Valid()
    ensures db.aulas == old(db.aulas) && db.usuarios == old(db.usuarios) && db.siguienteId == old(db.siguienteId)
    ensures h.None? ==> r == Fail(HorarioNulo) && db.horarios == old(db.horarios) && db.reservas == old(db.reservas)
    ensures h.Some? ==>
      && r == Pass
      && db.horarios == old(db.horarios) - {h.value}
      && db.reservas == old(db.reservas) - ReservasDeHorario(old(db.reservas), h.value)
      && |db.reservas| == |old(db.reservas)| - |ReservasDeHorario(old(db.reservas), h.value)|
      && (forall k :: k in old(db.reservas) ==> (k in db.reservas <==> old(db.reservas)[k].horario != h.value))
      && (forall k :: k in db.reservas ==> db.reservas[k] == old(db.reservas)[k])
  {
    if h.None? {
      return Fail(HorarioNulo);
    }
    var id := h.value;
    var lote := ReservasDeHorario(db.reservas, id);
    BorrarLoteCuenta(db.reservas, lote);
    db.reservas := db.reservas - lote;
    db.horarios := db.horarios - {id};
    return Pass;
  }

  /** Overwriting a slot does not look at the bookings that use it: a valid
      edit of a slot can make two bookings of the same room and date overlap
      although no overlap existed before. */
  lemma EditarHorarioPuedeSolapar()
    ensures exists horarios: map<int, Horario>, reservas: map<int, Reserva>, id: int, f: HorarioForm ::
      && id in horarios && SinSolapamientos(horarios, reservas)
      && ValidarHorario(f).Ok?
      && !SinSolapamientos(horarios[id := ValidarHorario(f).value], reservas)
  {
    var horarios := map[1 := Horario(Some(Lunes), 600, 660), 2 := Horario(Some(Lunes), 700, 760)];
    var reservas := map[10 := Reserva(5, None, 1, 0, 1, 1, 1), 11 := Reserva(5, None, 1, 0, 1, 2, 1)];
    var f := HorarioForm(Some(Lunes), Some(630), Some(760));
    var editados := horarios[2 := ValidarHorario(f).value];
    assert SinSolapamientos(horarios, reservas) by {
      assert reservas.Keys == {10, 11};
      assert !SeSolapaCon(horarios[1], horarios[2]) && !SeSolapaCon(horarios[2], horarios[1]);
    }
    assert SeSolapaCon(editados[reservas[10].horario], editados[reservas[11].horario]);
    assert !SinSolapamientos(editados, reservas);
    assert 2 in horarios && ValidarHorario(f).Ok?;
  }
}
