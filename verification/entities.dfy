/** The four persistent entities: rooms (Aula), weekly slots (Horario),
    bookings (Reserva) and users (Usuario). Each is a value; the store keeps
    it under its id. Times of day are minutes since midnight and calendar
    dates are day numbers. */
module Entities {
  import opened Common

  /** The day of the week a slot recurs on. */
  datatype DiaSemana = Lunes | Martes | Miercoles | Jueves | Viernes | Sabado | Domingo

  /** A stored weekly slot. The day may be null (nothing in the service
      checks it); both times are set, because the only way into the store,
      `HorarioServicio.guardar`, rejects a slot without them. */
  datatype Horario = Horario(diaSemana: Option<DiaSemana>, horaInicio: int, horaFin: int)

  /** A slot as a client submits it, every field nullable. */
  datatype HorarioForm = HorarioForm(diaSemana: Option<DiaSemana>, horaInicio: Option<int>, horaFin: Option<int>)

  /** Minute `t` lies in the half-open interval [horaInicio, horaFin) of `h`. */
  predicate Contiene(h: Horario, t: int) {
    h.horaInicio <= t < h.horaFin
  }

  /** `Horario.seSolapaCon`: same day of the week (two null days count as the
      same, as Java's `!=` on enum references does) and the intervals cross. */
  predicate SeSolapaCon(h: Horario, otro: Horario) {
    h.diaSemana == otro.diaSemana && h.horaInicio < otro.horaFin && h.horaFin > otro.horaInicio
  }

  /** Two well-formed slots overlap exactly when they fall on the same day
      and share a minute of their half-open intervals. */
  lemma {:induction false} SeSolapaConSiCompartenMinuto(h: Horario, otro: Horario)
    requires h.horaInicio < h.horaFin && otro.horaInicio < otro.horaFin
    ensures SeSolapaCon(h, otro) <==>
              h.diaSemana == otro.diaSemana && exists t :: Contiene(h, t) && Contiene(otro, t)
  {
    if SeSolapaCon(h, otro) {
      var t := if h.horaInicio < otro.horaInicio then otro.horaInicio else h.horaInicio;
      assert Contiene(h, t) && Contiene(otro, t);
    }
  }

  /** Overlap does not depend on which slot is asked. */
  lemma SeSolapaConSimetrico(h: Horario, otro: Horario)
    ensures SeSolapaCon(h, otro) == SeSolapaCon(otro, h)
  {
  }

  /** Slots on different days never overlap; slots that only touch (one ends
      when the other starts) do not overlap; a non-empty slot overlaps itself. */
  lemma SeSolapaConCasos(h: Horario, otro: Horario)
    ensures h.diaSemana != otro.diaSemana ==> !SeSolapaCon(h, otro)
    ensures h.horaFin == otro.horaInicio ==> !SeSolapaCon(h, otro)
    ensures h.horaInicio < h.horaFin ==> SeSolapaCon(h, h)
  {
  }

  /** A room. Every field is a boxed Java type and so nullable. */
  datatype Aula = Aula(nombre: Option<string>, capacidad: Option<int>, esOrdenadores: Option<bool>)

  /** A stored booking. Its room, slot and user are the ids of stored
      records, looked up in the store whenever they are needed, so a change to
      a shared slot is seen by every booking that uses it. The date and the
      attendee count are set: a booking without them cannot get past
      `validarReserva`. `fechaCreacion` is the insert timestamp. */
  datatype Reserva = Reserva(
    fecha: int,
    motivo: Option<string>,
    asistentes: int,
    fechaCreacion: int,
    aula: int,
    horario: int,
    usuario: int)

  /** A booking as a request body carries it: the room and the slot appear as
      `{id}` references, and every field may be absent. The same shape is the
      patch that `actualizar` merges. The creation timestamp has a setter and
      is deserialised like any other field; on insert the timestamp
      generator replaces it. */
  datatype ReservaForm = ReservaForm(
    fecha: Option<int>,
    motivo: Option<string>,
    asistentes: Option<int>,
    fechaCreacion: Option<int>,
    aula: Option<int>,
    horario: Option<int>,
    usuario: Option<int>)

  /** A user. `enabled` is a primitive `boolean`, the only field that is never
      null; the password is the encoded credential, opaque here. */
  datatype Usuario = Usuario(
    nombre: Option<string>,
    rol: Option<string>,
    email: Option<string>,
    password: Option<string>,
    enabled: bool)

  /** The column constraints a slot is declared with: the day is required
      (both times are required by the type). */
  predicate HorarioCumpleRestricciones(h: Horario) {
    h.diaSemana.Some?
  }

  /** The constraints a room is declared with: a non-blank name, a positive
      capacity and the computers flag. */
  predicate AulaCumpleRestricciones(a: Aula) {
    !Missing(a.nombre) && a.capacidad.Some? && a.capacidad.value > 0 && a.esOrdenadores.Some?
  }

  /** The constraints a booking is declared with: a positive attendee
      count (the date, room, slot and user are required by the type). */
  predicate ReservaCumpleRestricciones(r: Reserva) {
    r.asistentes > 0
  }

  /** The constraints a user is declared with: name, role, email and
      password all non-blank. */
  predicate UsuarioCumpleRestricciones(u: Usuario) {
    !Missing(u.nombre) && !Missing(u.rol) && !Missing(u.email) && !Missing(u.password)
  }

  const ROLE_ADMIN: string := "ROLE_ADMIN"
  const ROLE_PROFESOR: string := "ROLE_PROFESOR"

  /** The two role strings a user may hold. */
  predicate RolReconocido(rol: string) {
    rol == ROLE_ADMIN || rol == ROLE_PROFESOR
  }

  /** `new Usuario()`: every reference field null, `enabled` true. */
  const NuevoUsuario: Usuario := Usuario(None, None, None, None, true)

  /** `getUsername`: the email is the user name. */
  function GetUsername(u: Usuario): Option<string> {
    u.email
  }

  /** `isEnabled`: the stored flag. */
  function IsEnabled(u: Usuario): bool {
    u.enabled
  }

  /** `isAccountNonExpired`, `isAccountNonLocked` and
      `isCredentialsNonExpired`: constant for every user. */
  function IsAccountNonExpired(u: Usuario): bool { true }
  function IsAccountNonLocked(u: Usuario): bool { true }
  function IsCredentialsNonExpired(u: Usuario): bool { true }

  /** The `UserDetails` view of a user: the email is the user name, the
      account never expires, locks or loses its credentials, and a fresh
      user is enabled. */
  lemma UserDetailsDeUsuario(u: Usuario)
    ensures GetUsername(u) == u.email
    ensures IsEnabled(u) == u.enabled && IsEnabled(NuevoUsuario)
    ensures IsAccountNonExpired(u) && IsAccountNonLocked(u) && IsCredentialsNonExpired(u)
  {
  }

  // ---------------------------------------------------------------------
  // `rol.split(",")` and `getAuthorities`
  // ---------------------------------------------------------------------

  /** Every piece between commas, the empty ones included, in order:
      `Trozos("a,,b") == ["a", "", "b"]`, `Trozos("a,") == ["a", ""]`. */
  function Trozos(s: string): (r: seq<string>)
    ensures |r| >= 1
    ensures forall i :: 0 <= i < |r| ==> ',' !in r[i]
    ensures ',' !in s ==> r == [s]
    decreases |s|
  {
    if |s| == 0 then [""]
    else
      var resto := Trozos(s[1..]);
      if s[0] == ',' then [""] + resto
      else
        assert s == [s[0]] + s[1..];
        [[s[0]] + resto[0]] + resto[1..]
  }

  /** The pieces joined back with commas. */
  function Unir(ps: seq<string>): string
    requires |ps| >= 1
  {
    if |ps| == 1 then ps[0] else ps[0] + "," + Unir(ps[1..])
  }

  /** Cutting at the commas loses nothing: joining the pieces gives the string back. */
  lemma {:induction false} UnirTrozos(s: string)
    ensures Unir(Trozos(s)) == s
    decreases |s|
  {
    if |s| > 0 {
      var resto := Trozos(s[1..]);
      UnirTrozos(s[1..]);
      if s[0] == ',' {
        assert Trozos(s) == [""] + resto;
        assert Unir(Trozos(s)) == "" + "," + Unir(resto);
        assert s == [s[0]] + s[1..];
      } else {
        var t := Trozos(s);
        assert t == [[s[0]] + resto[0]] + resto[1..];
        if |resto| == 1 {
          assert Unir(t) == [s[0]] + resto[0];
        } else {
          assert t[1..] == resto[1..];
          assert Unir(resto) == resto[0] + "," + Unir(resto[1..]);
          assert Unir(t) == ([s[0]] + resto[0]) + "," + Unir(resto[1..]);
        }
        assert s == [s[0]] + s[1..];
      }
    }
  }

  /** Drops the trailing empty strings, as `String.split` does. */
  function SinVaciosFinales(ps: seq<string>): (r: seq<string>)
    ensures r <= ps
    ensures r == [] || r[|r| - 1] != ""
    ensures forall i :: |r| <= i < |ps| ==> ps[i] == ""
  {
    if |ps| == 0 then []
    else if ps[|ps| - 1] == "" then SinVaciosFinales(ps[..|ps| - 1])
    else ps
  }

  /** `s.split(",")`: a string without a comma is returned whole (even the
      empty string); otherwise the pieces between commas, in order and
      untrimmed, without the trailing empty ones. */
  function Split(s: string): (r: seq<string>)
    ensures forall i :: 0 <= i < |r| ==> ',' !in r[i]
    ensures ',' !in s ==> r == [s]
    ensures ',' in s ==> r <= Trozos(s) && forall i :: |r| <= i < |Trozos(s)| ==> Trozos(s)[i] == ""
    ensures ',' in s ==> r == [] || r[|r| - 1] != ""
  {
    if ',' !in s then [s] else SinVaciosFinales(Trozos(s))
  }

  /** `StringUtils.hasText`: some character is not whitespace. */
  predicate HasText(s: string) {
    !IsBlank(s)
  }

  /** `getAuthorities`: one authority per piece of `rol.split(",")`, in order.
      A null role throws a NullPointerException; a piece without text makes
      `new SimpleGrantedAuthority` throw. */
  method GetAuthorities(u: Usuario) returns (r: Result<seq<string>>)
    ensures u.rol.None? ==> r == Err(NullPointer)
    ensures u.rol.Some? ==>
      ((forall i :: 0 <= i < |Split(u.rol.value)| ==> HasText(Split(u.rol.value)[i])) ==> r == Ok(Split(u.rol.value)))
    ensures u.rol.Some? ==>
      ((exists i :: 0 <= i < |Split(u.rol.value)| && !HasText(Split(u.rol.value)[i])) ==> r == Err(AutoridadSinTexto))
  {
    if u.rol.None? {
      return Err(NullPointer);
    }
    var roles := Split(u.rol.value);
    var authorities: seq<string> := [];
    for i := 0 to |roles|
      invariant authorities == roles[..i]
      invariant forall j :: 0 <= j < i ==> HasText(roles[j])
    {
      if !HasText(roles[i]) {
        return Err(AutoridadSinTexto);
      }
      authorities := authorities + [roles[i]];
    }
    assert roles[..|roles|] == roles;
    return Ok(authorities);
  }

  /** A role string the validators accept yields exactly one authority, the
      role itself: a comma-joined multi-role string never passes them. */
  lemma RolReconocidoUnaAutoridad(rol: string)
    requires RolReconocido(rol)
    ensures ',' !in rol && Split(rol) == [rol] && HasText(rol)
  {
    assert rol[0] == 'R' && !IsWhitespace(rol[0]);
  }
}
