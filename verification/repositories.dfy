/** The in-memory store that stands for the four JPA repositories: one map per
    table, keyed by id, and the sequence that hands out new ids. */
module Repositories {
  import opened Common
  import opened Entities

  /** The foreign keys of the booking table: every booking names a stored
      room, slot and user. */
  predicate ReferenciasValidas(
    aulas: map<int, Aula>, horarios: map<int, Horario>,
    usuarios: map<int, Usuario>, reservas: map<int, Reserva>)
  {
    forall k :: k in reservas ==>
      reservas[k].aula in aulas && reservas[k].horario in horarios && reservas[k].usuario in usuarios
  }

  /** Every stored slot ends after it starts (what `HorarioServicio.guardar` checks). */
  predicate HorariosBienFormados(horarios: map<int, Horario>) {
    forall k :: k in horarios ==> horarios[k].horaInicio < horarios[k].horaFin
  }

  /** Every stored user has an email and one of the two recognised roles
      (what registration and `validarUsuario` check). */
  predicate UsuariosValidos(usuarios: map<int, Usuario>) {
    forall k :: k in usuarios ==>
      usuarios[k].email.Some? && usuarios[k].rol.Some? && RolReconocido(usuarios[k].rol.value)
  }

  /** The unique `email` column. */
  predicate EmailsUnicos(usuarios: map<int, Usuario>) {
    forall j, k :: j in usuarios && k in usuarios && j != k && usuarios[j].email.Some? ==>
      usuarios[j].email != usuarios[k].email
  }

  /** `getReservaByAulaa_Id`: the bookings of one room. */
  function ReservasDeAula(reservas: map<int, Reserva>, aula: int): (r: map<int, Reserva>)
    ensures forall k :: k in r <==> k in reservas && reservas[k].aula == aula
    ensures forall k :: k in r ==> r[k] == reservas[k]
  {
    map k | k in reservas && reservas[k].aula == aula :: reservas[k]
  }

  /** The ids of the bookings that use one slot. */
  function ReservasDeHorario(reservas: map<int, Reserva>, horario: int): set<int> {
    set k | k in reservas && reservas[k].horario == horario
  }

  /** The ids of the bookings that belong to one user. */
  function ReservasDeUsuario(reservas: map<int, Reserva>, usuario: int): set<int> {
    set k | k in reservas && reservas[k].usuario == usuario
  }

  /** Removing a batch of stored bookings removes exactly that many. */
  lemma {:induction false} BorrarLoteCuenta(reservas: map<int, Reserva>, lote: set<int>)
    requires lote <= reservas.Keys
    ensures |reservas - lote| == |reservas| - |lote|
  {
    assert (reservas - lote).Keys == reservas.Keys - lote;
    assert reservas.Keys == (reservas.Keys - lote) + lote;
    assert |reservas.Keys| == |reservas.Keys - lote| + |lote|;
  }

  /** Some stored user has this email. */
  predicate EmailRegistrado(usuarios: map<int, Usuario>, email: string) {
    exists k :: k in usuarios && usuarios[k].email == Some(email)
  }

  class Store {
    var aulas: map<int, Aula>
    var horarios: map<int, Horario>
    var usuarios: map<int, Usuario>
    var reservas: map<int, Reserva>
    /** The next value of the id sequence. */
    var siguienteId: int

    /** The store's invariant: ids come from the sequence, the foreign keys
        hold, and the stored slots and users are the ones the services let in. */
    ghost predicate Valid()
      reads this
    {
      && (forall k :: k in aulas ==> k < siguienteId)
      && (forall k :: k in horarios ==> k < siguienteId)
      && (forall k :: k in usuarios ==> k < siguienteId)
      && (forall k :: k in reservas ==> k < siguienteId)
      && ReferenciasValidas(aulas, horarios, usuarios, reservas)
      && HorariosBienFormados(horarios)
      && UsuariosValidos(usuarios)
      && EmailsUnicos(usuarios)
    }

    /** An empty database. */
    constructor ()
      ensures Valid()
      ensures aulas == map[] && horarios == map[] && usuarios == map[] && reservas == map[]
    {
      aulas, horarios, usuarios, reservas := map[], map[], map[], map[];
      siguienteId := 1;
    }

    /** `UsuarioRepositorio.findByEmail`. */
    method FindByEmail(email: string) returns (r: Option<int>)
      ensures r.Some? ==> r.value in usuarios && usuarios[r.value].email == Some(email)
      ensures r.None? ==> forall k :: k in usuarios ==> usuarios[k].email != Some(email)
      ensures r.Some? <==> EmailRegistrado(usuarios, email)
    {
      if k :| k in usuarios && usuarios[k].email == Some(email) {
        return Some(k);
      }
      return None;
    }
  }
}
