/** `AulaServicio`: saving, patching and deleting rooms, and the three room
    queries. Deleting a room does not touch its bookings. */
module AulaServicio {
  import opened Common
  import opened Entities
  import opened CopiarClase
  import opened Repositories

  /** `guardar`: the room is inserted as given, under the next id, with no
      check of its own. */
  method Guardar(db: Store, a: Aula) returns (id: int)
    requires db.Valid()
    modifies db
    ensures db.Valid()
    ensures db.horarios == old(db.horarios) && db.usuarios == old(db.usuarios) && db.reservas == old(db.reservas)
    ensures id == old(db.siguienteId) && id !in old(db.aulas)
    ensures db.aulas == old(db.aulas)[id := a] && db.siguienteId == id + 1
  {
    id := db.siguienteId;
    db.aulas := db.aulas[id := a];
    db.siguienteId := id + 1;
  }

  /** `actualizar`: when room `id` exists the patch is merged into it and
      saved, whatever its bookings (a lower capacity is not checked against
      them); otherwise the patch is handed back and nothing is stored. */
  method Actualizar(db: Store, patch: Aula, id: int) returns (r: Actualizacion<Aula, Aula>)
    requires db.Valid()
    modifies db
    ensures db.Valid()
    ensures db.horarios == old(db.horarios) && db.usuarios == old(db.usuarios) && db.reservas == old(db.reservas)
    ensures db.siguienteId == old(db.siguienteId)
    ensures id !in old(db.aulas) ==> r == SinCambios(patch) && db.aulas == old(db.aulas)
    ensures id in old(db.aulas) ==>
      && r == Guardada(MergeAula(old(db.aulas)[id], patch))
      && db.aulas == old(db.aulas)[id := MergeAula(old(db.aulas)[id], patch)]
  {
    if id !in db.aulas {
      return SinCambios(patch);
    }
    var m := MergeAula(db.aulas[id], patch);
    db.aulas := db.aulas[id := m];
    return Guardada(m);
  }

  /** Neither `guardar` nor `actualizar` checks the room's declared
      constraints. A patch with a blank name or a capacity that is not
      positive yields a merged room that breaks them, and `Actualizar` stores
      it as it is; a patch whose set fields meet them keeps a room that meets
      them. */
  lemma MergeAulaRestricciones(dest: Aula, patch: Aula)
    ensures patch.nombre.Some? && IsBlank(patch.nombre.value) ==> !AulaCumpleRestricciones(MergeAula(dest, patch))
    ensures patch.capacidad.Some? && patch.capacidad.value <= 0 ==> !AulaCumpleRestricciones(MergeAula(dest, patch))
    ensures AulaCumpleRestricciones(dest)
      && (patch.nombre.None? || !IsBlank(patch.nombre.value))
      && (patch.capacidad.None? || patch.capacidad.value > 0)
      ==> AulaCumpleRestricciones(MergeAula(dest, patch))
  {
  }

  /** `eliminar`: deletes by id and nothing else. The booking table's
      foreign key makes the delete fail while bookings still name the room;
      an unknown id is a silent no-op. */
  method Eliminar(db: Store, id: int) returns (r: Outcome)
    requires db.Valid()
    modifies db
    ensures db.Valid()
    ensures db.horarios == old(db.horarios) && db.usuarios == old(db.usuarios) && db.reservas == old(db.reservas)
    ensures db.siguienteId == old(db.siguienteId)
    ensures r == Fail(ConstraintViolation) <==> ReservasDeAula(old(db.reservas), id) != map[]
    ensures r.Fail? ==> db.aulas == old(db.aulas)
    ensures ReservasDeAula(old(db.reservas), id) == map[] ==> r == Pass
    ensures r == Pass ==> db.aulas == old(db.aulas) - {id}
  {
    if ReservasDeAula(db.reservas, id) != map[] {
      return Fail(ConstraintViolation);
    }
    db.aulas := db.aulas - {id};
    return Pass;
  }

  /** `obtenerPorCapacidad(c)`: the rooms whose capacity is at least `c`; a
      room with no capacity never matches the SQL comparison. */
  function ObtenerPorCapacidad(aulas: map<int, Aula>, c: int): (r: map<int, Aula>)
    ensures forall k :: k in r <==> k in aulas && aulas[k].capacidad.Some? && aulas[k].capacidad.value >= c
    ensures forall k :: k in r ==> r[k] == aulas[k]
  {
    map k | k in aulas && aulas[k].capacidad.Some? && aulas[k].capacidad.value >= c :: aulas[k]
  }

  /** Asking for more seats never returns more rooms, and every room found
      holds at least the seats asked for. */
  lemma ObtenerPorCapacidadMonotona(aulas: map<int, Aula>, c1: int, c2: int)
    requires c1 <= c2
    ensures ObtenerPorCapacidad(aulas, c2).Keys <= ObtenerPorCapacidad(aulas, c1).Keys
    ensures forall k :: k in ObtenerPorCapacidad(aulas, c2) ==> ObtenerPorCapacidad(aulas, c2)[k].capacidad.value >= c1
  {
  }

  /** `obtenerAulasConOrdenador(b)`: the rooms whose computers flag is `b`. */
  function ObtenerAulasConOrdenador(aulas: map<int, Aula>, b: bool): (r: map<int, Aula>)
    ensures forall k :: k in r <==> k in aulas && aulas[k].esOrdenadores == Some(b)
    ensures forall k :: k in r ==> r[k] == aulas[k]
  {
    map k | k in aulas && aulas[k].esOrdenadores == Some(b) :: aulas[k]
  }

  /** The two flag queries never share a room, and together they return
      every room whose flag is set. */
  lemma ObtenerAulasConOrdenadorParticion(aulas: map<int, Aula>)
    ensures ObtenerAulasConOrdenador(aulas, true).Keys !! ObtenerAulasConOrdenador(aulas, false).Keys
    ensures forall k :: k in aulas && aulas[k].esOrdenadores.Some? ==>
              k in ObtenerAulasConOrdenador(aulas, true) || k in ObtenerAulasConOrdenador(aulas, false)
  {
    forall k | k in aulas && aulas[k].esOrdenadores.Some?
      ensures k in ObtenerAulasConOrdenador(aulas, true) || k in ObtenerAulasConOrdenador(aulas, false)
    {
      var b := aulas[k].esOrdenadores.value;
      assert aulas[k].esOrdenadores == Some(b);
      assert k in ObtenerAulasConOrdenador(aulas, b);
      if b {
        assert k in ObtenerAulasConOrdenador(aulas, true);
      } else {
        assert k in ObtenerAulasConOrdenador(aulas, false);
      }
    }
  }

  /** `obtenerReservasDeAula(id)`: the bookings of room `id`. Each stored
      booking is found under its own room and under no other. */
  lemma ObtenerReservasDeAula(reservas: map<int, Reserva>, aula: int)
    ensures forall k :: k in reservas ==> k in ReservasDeAula(reservas, reservas[k].aula)
    ensures forall k :: k in reservas && reservas[k].aula != aula ==> k !in ReservasDeAula(reservas, aula)
    ensures ReservasDeAula(reservas, aula).Keys <= reservas.Keys
  {
  }
}
