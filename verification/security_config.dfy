/** `SecurityConfig.securityFilterChain`: the ordered list of request rules.
    A request is decided by the first rule whose method and path pattern
    match it; the last rule matches every request. */
module SecurityConfig {
  import opened Common
  import opened Entities

  datatype Metodo = GET | POST | PUT | DELETE | PATCH | HEAD | OPTIONS | TRACE

  /** A subtree pattern (the path `base` and every path below it), one
      exact path, or `anyRequest()`. */
  datatype Patron = Subarbol(base: string) | Exacta(ruta: string) | CualquierRuta

  /** `permitAll()`, `hasAnyRole(...)`/`hasRole(...)` with the roles written
      as the authorities they stand for (`ADMIN` is `ROLE_ADMIN`), and
      `authenticated()`. */
  datatype Acceso = PermitAll | HasAnyRole(autoridades: seq<string>) | Authenticated

  /** A `requestMatchers(...)` rule; a rule without method matches every method. */
  datatype Regla = Regla(metodo: Option<Metodo>, patron: Patron, acceso: Acceso)

  predicate EnSubarbol(base: string, ruta: string) {
    ruta == base || base + "/" <= ruta
  }

  predicate CoincidePatron(p: Patron, ruta: string) {
    match p
    case Subarbol(base) => EnSubarbol(base, ruta)
    case Exacta(r) => ruta == r
    case CualquierRuta => true
  }

  predicate Coincide(regla: Regla, m: Metodo, ruta: string) {
    (regla.metodo.None? || regla.metodo == Some(m)) && CoincidePatron(regla.patron, ruta)
  }

  const ProfesorOAdmin: Acceso := HasAnyRole([ROLE_PROFESOR, ROLE_ADMIN])
  const SoloAdmin: Acceso := HasAnyRole([ROLE_ADMIN])

  /** The rules, in the order they are declared. */
  const Reglas: seq<Regla> := [
    Regla(None, Subarbol("/auth"), PermitAll),
    Regla(Some(GET), Subarbol("/aulas"), ProfesorOAdmin),
    Regla(Some(POST), Subarbol("/aulas"), SoloAdmin),
    Regla(Some(PUT), Subarbol("/aulas"), SoloAdmin),
    Regla(Some(DELETE), Subarbol("/aulas"), SoloAdmin),
    Regla(Some(GET), Subarbol("/horarios"), ProfesorOAdmin),
    Regla(Some(POST), Subarbol("/horarios"), SoloAdmin),
    Regla(Some(PUT), Subarbol("/horarios"), SoloAdmin),
    Regla(Some(DELETE), Subarbol("/horarios"), SoloAdmin),
    Regla(Some(GET), Subarbol("/reservas"), ProfesorOAdmin),
    Regla(Some(POST), Subarbol("/reservas"), ProfesorOAdmin),
    Regla(Some(PUT), Subarbol("/reservas"), ProfesorOAdmin),
    Regla(Some(DELETE), Subarbol("/reservas"), ProfesorOAdmin),
    Regla(None, Subarbol("/usuarios"), ProfesorOAdmin),
    Regla(None, Exacta("/"), PermitAll),
    Regla(None, CualquierRuta, Authenticated)
  ]

  /** The position of the first rule that matches, if any does. */
  function PrimeraCoincidencia(reglas: seq<Regla>, m: Metodo, ruta: string): (r: Option<nat>)
    ensures r.Some? ==> r.value < |reglas| && Coincide(reglas[r.value], m, ruta)
    ensures r.Some? ==> forall j :: 0 <= j < r.value ==> !Coincide(reglas[j], m, ruta)
    ensures r.None? ==> forall j :: 0 <= j < |reglas| ==> !Coincide(reglas[j], m, ruta)
  {
    if |reglas| == 0 then None
    else if Coincide(reglas[0], m, ruta) then Some(0)
    else match PrimeraCoincidencia(reglas[1..], m, ruta)
      case None => None
      case Some(i) => Some(i + 1)
  }

  /** Whether a principal with these authorities (`None` when the request
      carries no credentials) satisfies an access rule. */
  predicate Permite(a: Acceso, autoridades: Option<seq<string>>) {
    match a
    case PermitAll => true
    case HasAnyRole(roles) => autoridades.Some? && exists i :: 0 <= i < |roles| && roles[i] in autoridades.value
    case Authenticated => autoridades.Some?
  }

  /** The decision for a request: the access rule of the first matching
      rule, applied to the principal. */
  predicate Decidir(m: Metodo, ruta: string, autoridades: Option<seq<string>>) {
    match PrimeraCoincidencia(Reglas, m, ruta)
    case Some(i) => Permite(Reglas[i].acceso, autoridades)
    case None => false
  }

  /** The last rule matches every request, so some rule always decides. */
  lemma SiempreHayRegla(m: Metodo, ruta: string)
    ensures PrimeraCoincidencia(Reglas, m, ruta).Some?
  {
    assert Coincide(Reglas[15], m, ruta);
  }

  /** Rule `i` decides a request that it matches and no earlier rule does. */
  lemma DecideRegla(i: nat, m: Metodo, ruta: string, pr: Option<seq<string>>)
    requires i < |Reglas| && Coincide(Reglas[i], m, ruta)
    requires forall j :: 0 <= j < i ==> !Coincide(Reglas[j], m, ruta)
    ensures Decidir(m, ruta, pr) == Permite(Reglas[i].acceso, pr)
  {
    assert PrimeraCoincidencia(Reglas, m, ruta).Some?;
  }

  /** Two subtrees whose base paths differ at a position both have share no path. */
  lemma SubarbolesDisjuntos(a: string, b: string, k: nat, ruta: string)
    requires k < |a| && k < |b| && a[k] != b[k]
    requires EnSubarbol(a, ruta)
    ensures !EnSubarbol(b, ruta)
  {
    assert ruta[k] == a[k] by {
      if ruta != a {
        assert (a + "/")[k] == a[k];
      }
    }
  }

  /** `hasAnyRole("PROFESOR", "ADMIN")` asks for either authority,
      `hasRole("ADMIN")` for `ROLE_ADMIN`, `authenticated()` for any
      principal, and `permitAll()` for nothing. */
  lemma PermiteAccesos(pr: Option<seq<string>>)
    ensures Permite(ProfesorOAdmin, pr) <==> pr.Some? && (ROLE_PROFESOR in pr.value || ROLE_ADMIN in pr.value)
    ensures Permite(SoloAdmin, pr) <==> pr.Some? && ROLE_ADMIN in pr.value
    ensures Permite(Authenticated, pr) <==> pr.Some?
    ensures Permite(PermitAll, pr)
  {
    if pr.Some? && ROLE_PROFESOR in pr.value {
      assert ProfesorOAdmin.autoridades[0] in pr.value;
    }
    if pr.Some? && ROLE_ADMIN in pr.value {
      assert ProfesorOAdmin.autoridades[1] in pr.value;
      assert SoloAdmin.autoridades[0] in pr.value;
    }
  }

  /** Reading rooms needs either role; creating, replacing or deleting them
      needs `ROLE_ADMIN`; any other method only needs a principal. */
  lemma RutasAulas(m: Metodo, ruta: string, pr: Option<seq<string>>)
    requires EnSubarbol("/aulas", ruta)
    ensures m == GET ==> (Decidir(m, ruta, pr) <==> pr.Some? && (ROLE_PROFESOR in pr.value || ROLE_ADMIN in pr.value))
    ensures m == POST || m == PUT || m == DELETE ==> (Decidir(m, ruta, pr) <==> pr.Some? && ROLE_ADMIN in pr.value)
    ensures m != GET && m != POST && m != PUT && m != DELETE ==> (Decidir(m, ruta, pr) <==> pr.Some?)
  {
    PermiteAccesos(pr);
    var i := match m
      case GET => 1
      case POST => 2
      case PUT => 3
      case DELETE => 4
      case _ => 15;
    assert forall j :: 0 <= j < i ==> !Coincide(Reglas[j], m, ruta) by {
      SubarbolesDisjuntos("/aulas", "/auth", 3, ruta);
      SubarbolesDisjuntos("/aulas", "/horarios", 1, ruta);
      SubarbolesDisjuntos("/aulas", "/reservas", 1, ruta);
      SubarbolesDisjuntos("/aulas", "/usuarios", 1, ruta);
      forall j | 0 <= j < i
        ensures !Coincide(Reglas[j], m, ruta)
      {
        if j < 5 {
          assert j == 0 || j == 1 || j == 2 || j == 3 || j == 4;
        } else if j < 9 {
          assert j == 5 || j == 6 || j == 7 || j == 8;
        } else {
          assert j == 9 || j == 10 || j == 11 || j == 12 || j == 13 || j == 14;
        }
      }
    }
    DecideRegla(i, m, ruta, pr);
  }

  /** Slots follow the same rule as rooms. */
  lemma RutasHorarios(m: Metodo, ruta: string, pr: Option<seq<string>>)
    requires EnSubarbol("/horarios", ruta)
    ensures m == GET ==> (Decidir(m, ruta, pr) <==> pr.Some? && (ROLE_PROFESOR in pr.value || ROLE_ADMIN in pr.value))
    ensures m == POST || m == PUT || m == DELETE ==> (Decidir(m, ruta, pr) <==> pr.Some? && ROLE_ADMIN in pr.value)
    ensures m != GET && m != POST && m != PUT && m != DELETE ==> (Decidir(m, ruta, pr) <==> pr.Some?)
  {
    PermiteAccesos(pr);
    var i := match m
      case GET => 5
      case POST => 6
      case PUT => 7
      case DELETE => 8
      case _ => 15;
    assert forall j :: 0 <= j < i ==> !Coincide(Reglas[j], m, ruta) by {
      SubarbolesDisjuntos("/horarios", "/auth", 1, ruta);
      SubarbolesDisjuntos("/horarios", "/aulas", 1, ruta);
      SubarbolesDisjuntos("/horarios", "/reservas", 1, ruta);
      SubarbolesDisjuntos("/horarios", "/usuarios", 1, ruta);
      forall j | 0 <= j < i
        ensures !Coincide(Reglas[j], m, ruta)
      {
        if j < 5 {
          assert j == 0 || j == 1 || j == 2 || j == 3 || j == 4;
        } else if j < 9 {
          assert j == 5 || j == 6 || j == 7 || j == 8;
        } else {
          assert j == 9 || j == 10 || j == 11 || j == 12 || j == 13 || j == 14;
        }
      }
    }
    DecideRegla(i, m, ruta, pr);
  }

  /** Reading, creating, replacing and deleting bookings needs either role
      (whether the principal may touch a given booking is decided by the
      booking endpoints); any other method only needs a principal. */
  lemma RutasReservas(m: Metodo, ruta: string, pr: Option<seq<string>>)
    requires EnSubarbol("/reservas", ruta)
    ensures m == GET || m == POST || m == PUT || m == DELETE ==>
      (Decidir(m, ruta, pr) <==> pr.Some? && (ROLE_PROFESOR in pr.value || ROLE_ADMIN in pr.value))
    ensures m != GET && m != POST && m != PUT && m != DELETE ==> (Decidir(m, ruta, pr) <==> pr.Some?)
  {
    PermiteAccesos(pr);
    var i := match m
      case GET => 9
      case POST => 10
      case PUT => 11
      case DELETE => 12
      case _ => 15;
    assert forall j :: 0 <= j < i ==> !Coincide(Reglas[j], m, ruta) by {
      SubarbolesDisjuntos("/reservas", "/auth", 1, ruta);
      SubarbolesDisjuntos("/reservas", "/aulas", 1, ruta);
      SubarbolesDisjuntos("/reservas", "/horarios", 1, ruta);
      SubarbolesDisjuntos("/reservas", "/usuarios", 1, ruta);
      forall j | 0 <= j < i
        ensures !Coincide(Reglas[j], m, ruta)
      {
        if j < 5 {
          assert j == 0 || j == 1 || j == 2 || j == 3 || j == 4;
        } else if j < 9 {
          assert j == 5 || j == 6 || j == 7 || j == 8;
        } else {
          assert j == 9 || j == 10 || j == 11 || j == 12 || j == 13 || j == 14;
        }
      }
    }
    DecideRegla(i, m, ruta, pr);
  }

  /** Every method on the user paths needs either role, so a principal with
      only `ROLE_PROFESOR` passes this check even to delete a user. */
  lemma RutasUsuarios(m: Metodo, ruta: string, pr: Option<seq<string>>)
    requires EnSubarbol("/usuarios", ruta)
    ensures Decidir(m, ruta, pr) <==> pr.Some? && (ROLE_PROFESOR in pr.value || ROLE_ADMIN in pr.value)
    ensures Decidir(DELETE, ruta, Some([ROLE_PROFESOR]))
  {
    PermiteAccesos(pr);
    PermiteAccesos(Some([ROLE_PROFESOR]));
    SubarbolesDisjuntos("/usuarios", "/auth", 1, ruta);
    SubarbolesDisjuntos("/usuarios", "/aulas", 1, ruta);
    SubarbolesDisjuntos("/usuarios", "/horarios", 1, ruta);
    SubarbolesDisjuntos("/usuarios", "/reservas", 1, ruta);
    forall mm: Metodo, j | 0 <= j < 13
      ensures !Coincide(Reglas[j], mm, ruta)
    {
      if j < 5 {
        assert j == 0 || j == 1 || j == 2 || j == 3 || j == 4;
      } else if j < 9 {
        assert j == 5 || j == 6 || j == 7 || j == 8;
      } else {
        assert j == 9 || j == 10 || j == 11 || j == 12 || j == 13 || j == 14;
      }
    }
    DecideRegla(13, m, ruta, pr);
    DecideRegla(13, DELETE, ruta, Some([ROLE_PROFESOR]));
  }

  /** The authentication paths and the root path are open to anyone, with
      or without credentials, whatever the method. */
  lemma RutasPublicas(m: Metodo, ruta: string, pr: Option<seq<string>>)
    requires EnSubarbol("/auth", ruta) || ruta == "/"
    ensures Decidir(m, ruta, pr)
  {
    if EnSubarbol("/auth", ruta) {
      DecideRegla(0, m, ruta, pr);
    } else {
      forall j | 0 <= j < 14
        ensures !Coincide(Reglas[j], m, ruta)
      {
      if j < 5 {
        assert j == 0 || j == 1 || j == 2 || j == 3 || j == 4;
      } else if j < 9 {
        assert j == 5 || j == 6 || j == 7 || j == 8;
      } else {
        assert j == 9 || j == 10 || j == 11 || j == 12 || j == 13 || j == 14;
      }
      }
      DecideRegla(14, m, ruta, pr);
    }
  }

  /** A request that no earlier rule names falls to `anyRequest()` and
      only needs a principal. */
  lemma RutasRestantes(m: Metodo, ruta: string, pr: Option<seq<string>>)
    requires !EnSubarbol("/auth", ruta) && !EnSubarbol("/aulas", ruta) && !EnSubarbol("/horarios", ruta)
    requires !EnSubarbol("/reservas", ruta) && !EnSubarbol("/usuarios", ruta) && ruta != "/"
    ensures Decidir(m, ruta, pr) <==> pr.Some?
  {
    forall j | 0 <= j < 15
      ensures !Coincide(Reglas[j], m, ruta)
    {
      if j < 5 {
        assert j == 0 || j == 1 || j == 2 || j == 3 || j == 4;
      } else if j < 9 {
        assert j == 5 || j == 6 || j == 7 || j == 8;
      } else {
        assert j == 9 || j == 10 || j == 11 || j == 12 || j == 13 || j == 14;
      }
    }
    DecideRegla(15, m, ruta, pr);
  }
}
