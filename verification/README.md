# Reserva de aulas — a verified model of the booking core

The system is a REST back end that lets a school's teachers book rooms
(aulas) for weekly time slots (horarios) on a calendar date. It has four
persistent entities: rooms, slots, bookings (reservas) and users (usuarios).
Bookings are validated before they are saved. A booking may not lie in the
past. It may not have more attendees than its room holds. It may not overlap
another booking of the same room on the same date. Updates are partial merges
that skip null fields. Deleting a slot or a user deletes its bookings first.
Deleting a room is blocked by the database while bookings still reference it.
A teacher may edit or delete only their own bookings, and an administrator any
booking. Access to each route is decided by an ordered list of rules.

The model is written in Dafny:

- The four repositories are one `Repositories.Store` object holding one map
  per table plus the id sequence.
- Its invariant `Valid()` holds the foreign keys, well-formed slots, users
  with a recognised role, and unique emails.
- Every state-changing service operation is a module-level method that
  takes the store and may modify it. Its `ensures` ties the new state and
  the outcome to pure functions: `AdmitirNueva`, `AdmitirCambio`,
  `ValidarHorario` and `CambioUsuario` for bookings, slots and users,
  `MergeAula` for room updates, and set differences of the booking map for
  the deletions. Lemmas prove what the source promises about those
  functions.
- Java `null` is `Option.None`.
- An `IllegalArgumentException` is `Err`/`Fail` with an error whose
  `Message()` is the exception text. The controllers turn it into a 400.
- A `NullPointerException` and a database constraint violation are errors
  that the controllers turn into a 500.
- Times of day are minutes since midnight. Dates are day numbers. The current
  date (`LocalDate.now()`) and the insert timestamp are parameters.

## Model

The file paths below are under `src/main/java/es/juanbosco/ruben/reservaraulas/`
and are written out in full in each row.

| member | source | states |
|---|---|---|
| Entities.SeSolapaConSiCompartenMinuto | src/main/java/es/juanbosco/ruben/reservaraulas/entities/Horario.java:43-50 | two well-formed slots overlap exactly when they are on the same day and some minute lies in both half-open intervals |
| Entities.SeSolapaConSimetrico | src/main/java/es/juanbosco/ruben/reservaraulas/entities/Horario.java:43-50 | overlap is symmetric |
| Entities.SeSolapaConCasos | src/main/java/es/juanbosco/ruben/reservaraulas/entities/Horario.java:45-49 | different days never overlap; back-to-back slots do not overlap; a non-empty slot overlaps itself |
| Entities.UserDetailsDeUsuario | src/main/java/es/juanbosco/ruben/reservaraulas/entities/Usuario.java:49-87 | the user name is the email; `isEnabled` is the stored flag, which is true for a new user; the account never expires, never locks and its credentials never expire |
| Entities.Trozos | src/main/java/es/juanbosco/ruben/reservaraulas/entities/Usuario.java:56 | cutting at commas gives at least one piece and no piece holds a comma; a comma-free string is its own single piece |
| Entities.UnirTrozos | src/main/java/es/juanbosco/ruben/reservaraulas/entities/Usuario.java:56 | joining the pieces back with commas gives the original string |
| Entities.SinVaciosFinales | src/main/java/es/juanbosco/ruben/reservaraulas/entities/Usuario.java:56 | the result is a prefix of the pieces with no trailing empty piece, and only empty pieces were dropped |
| Entities.Split | src/main/java/es/juanbosco/ruben/reservaraulas/entities/Usuario.java:56 | `split(",")`: a comma-free string comes back whole; otherwise a prefix of the pieces that drops only trailing empty ones and leaves no empty piece last; no piece holds a comma |
| Entities.GetAuthorities | src/main/java/es/juanbosco/ruben/reservaraulas/entities/Usuario.java:51-61 | a null role throws NPE; otherwise one authority per piece of the split role, in order, or an error when a piece has no text |
| Entities.RolReconocidoUnaAutoridad | src/main/java/es/juanbosco/ruben/reservaraulas/entities/Usuario.java:51-61 | each of the two recognised roles has no comma and yields exactly itself as the single authority |
| CopiarClase.CopyProperty | src/main/java/es/juanbosco/ruben/reservaraulas/Beans/CopiarClase.java:8-14 | a non-null value overwrites the destination and a null one leaves it |
| CopiarClase.CopyNullable | src/main/java/es/juanbosco/ruben/reservaraulas/Beans/CopiarClase.java:8-14 | the same rule on a nullable destination field |
| CopiarClase.MergeAulaPropiedades | src/main/java/es/juanbosco/ruben/reservaraulas/services/AulaServicio.java:39 | after a room merge each field is the patch's if set, else the old one; the all-null patch is the identity; the merge is idempotent |
| CopiarClase.MergeReservaPropiedades | src/main/java/es/juanbosco/ruben/reservaraulas/services/ReservaServicio.java:35 | the same per-field rule for bookings, the creation timestamp included (a patch without one keeps the stored one); the all-null patch is the identity; the merge is idempotent |
| CopiarClase.MergeUsuarioPropiedades | src/main/java/es/juanbosco/ruben/reservaraulas/entities/Usuario.java:49 | the per-field rule for users; `enabled` is always taken from the patch, so a patch with nothing set re-enables the account; the merge is idempotent |
| Repositories.ReservasDeAula | src/main/java/es/juanbosco/ruben/reservaraulas/repositories/ReservaRepositorio.java:9 | exactly the bookings whose room is the given one, unchanged |
| Repositories.BorrarLoteCuenta | src/main/java/es/juanbosco/ruben/reservaraulas/services/HorarioServicio.java:45-48 | deleting a batch of stored bookings removes exactly as many as the batch holds |
| Repositories.Store.FindByEmail | src/main/java/es/juanbosco/ruben/reservaraulas/repositories/UsuarioRepositorio.java:9 | returns a user holding that email, or nothing exactly when no user holds it |
| ReservaServicio.Validar | src/main/java/es/juanbosco/ruben/reservaraulas/services/ReservaServicio.java:98-130 | the three checks, in order: past date (today is allowed), attendees over capacity (equal is allowed), overlap with another booking of the room on the same date (the booking itself excluded); each outcome is stated in both directions; a null field gives NPE |
| ReservaServicio.ValidarReserva | src/main/java/es/juanbosco/ruben/reservaraulas/services/ReservaServicio.java:98-130 | the loop over the room's bookings returns exactly the outcome `Validar` specifies |
| ReservaServicio.AdmitirNueva | src/main/java/es/juanbosco/ruben/reservaraulas/services/ReservaServicio.java:61-84 | a missing slot reference is rejected, then an unknown slot, then an unknown room; once they resolve, a failed validation returns `Validar`'s own error and a missing user a constraint violation; an accepted booking is the form's fields, passes validation, and references stored records; conversely, such a form is accepted |
| ReservaServicio.AdmitirCambio | src/main/java/es/juanbosco/ruben/reservaraulas/services/ReservaServicio.java:31-57 | an unknown slot or room in the patch is rejected; once they resolve, a failed validation returns `Validar`'s own error and a missing user a constraint violation; an accepted edit is the null-skipping merge over the stored booking and passes validation with itself excluded; conversely, such a merge is accepted |
| ReservaServicio.CandidataNueva | src/main/java/es/juanbosco/ruben/reservaraulas/services/ReservaServicio.java:61-82 | the booking `guardar` validates carries the form's date and attendees, the stored slot it names and, when it names one, the stored room |
| ReservaServicio.CandidataCambio | src/main/java/es/juanbosco/ruben/reservaraulas/services/ReservaServicio.java:35-52 | the booking `actualizar` validates is the stored one merged with the patch, with its own id so that it is skipped, and the stored record of the room it ends in (whose capacity is checked) |
| ReservaServicio.AdmisionNoExigeAsistentesPositivos | src/main/java/es/juanbosco/ruben/reservaraulas/entities/Reserva.java:39-41 | an otherwise admissible booking with no attendees (or fewer) is admitted on create and on edit, breaking the declared positive-attendees constraint |
| ReservaServicio.AdmitirNuevaPreservaSinSolapamientos | src/main/java/es/juanbosco/ruben/reservaraulas/services/ReservaServicio.java:109-129 | inserting an accepted booking into an overlap-free set of bookings leaves it overlap-free |
| ReservaServicio.AdmitirCambioPreservaSinSolapamientos | src/main/java/es/juanbosco/ruben/reservaraulas/services/ReservaServicio.java:113-116 | replacing a booking by an accepted edit keeps an overlap-free set overlap-free |
| ReservaServicio.EdicionSinMoverNoSeSolapa | src/main/java/es/juanbosco/ruben/reservaraulas/services/ReservaServicio.java:113-116 | an edit whose date, room and slot are unset or equal to the stored ones is never rejected as an overlap, because the booking is skipped when compared with itself |
| ReservaServicio.Guardar | src/main/java/es/juanbosco/ruben/reservaraulas/services/ReservaServicio.java:61-84 | on acceptance, inserts the admitted booking under a fresh id; otherwise changes nothing and returns the error; the store invariant holds |
| ReservaServicio.Actualizar | src/main/java/es/juanbosco/ruben/reservaraulas/services/ReservaServicio.java:31-57 | an unknown id returns the patch and changes nothing; otherwise stores the admitted edit at that id or returns the error |
| ReservaServicio.EliminarPorId | src/main/java/es/juanbosco/ruben/reservaraulas/services/ReservaServicio.java:86-92 | an unknown id gives "Reserva no encontrada"; otherwise exactly that booking is removed |
| HorarioServicio.ValidarHorario | src/main/java/es/juanbosco/ruben/reservaraulas/services/HorarioServicio.java:23-32 | a null time is rejected first, then an end not after the start; otherwise the slot is accepted with the form's fields |
| HorarioServicio.ValidarHorarioRechazaVacios | src/main/java/es/juanbosco/ruben/reservaraulas/services/HorarioServicio.java:28-30 | empty and reversed intervals are rejected; a proper interval is accepted even with a null day, which then breaks the day's not-null constraint |
| HorarioServicio.Guardar | src/main/java/es/juanbosco/ruben/reservaraulas/services/HorarioServicio.java:23-32 | a rejected slot changes nothing; an accepted one overwrites the given id or is inserted under a fresh id; bookings are untouched |
| HorarioServicio.Eliminar | src/main/java/es/juanbosco/ruben/reservaraulas/services/HorarioServicio.java:34-53 | a null slot is rejected; otherwise every booking of the slot is deleted (the count drops by exactly that many), the other bookings stay, and the slot is removed |
| HorarioServicio.EditarHorarioPuedeSolapar | src/main/java/es/juanbosco/ruben/reservaraulas/services/HorarioServicio.java:23-32 | there are stores where an accepted slot edit makes two existing bookings overlap, because slot edits are not re-checked against bookings |
| UsuarioService.ValidarUsuario | src/main/java/es/juanbosco/ruben/reservaraulas/services/UsuarioService.java:78-97 | each error holds exactly when the earlier checks pass and its own check fails (blank name, blank role, unknown role, blank email, blank password); Pass holds exactly when all pass |
| UsuarioService.ValidarUsuarioRolUnico | src/main/java/es/juanbosco/ruben/reservaraulas/services/UsuarioService.java:88-90 | a comma-joined role is refused, so a validated user's role splits to itself alone |
| UsuarioService.ValidarUsuarioCubreRestricciones | src/main/java/es/juanbosco/ruben/reservaraulas/entities/Usuario.java:28-43 | validation passes exactly when the four text constraints of the entity hold and the role is recognised |
| UsuarioService.CambioUsuario | src/main/java/es/juanbosco/ruben/reservaraulas/services/UsuarioService.java:55-68 | the merged user is rejected with the validation error, or with a constraint violation when its email is another user's; otherwise it is the merge |
| UsuarioService.Actualizar | src/main/java/es/juanbosco/ruben/reservaraulas/services/UsuarioService.java:55-68 | an unknown id returns the patch and changes nothing; otherwise stores the accepted merge at that id or returns the error |
| UsuarioService.EliminarPorId | src/main/java/es/juanbosco/ruben/reservaraulas/services/UsuarioService.java:32-51 | an unknown id gives "Usuario no encontrado"; otherwise every booking of the user is deleted, the other bookings stay, and the user is removed |
| AulaServicio.Guardar | src/main/java/es/juanbosco/ruben/reservaraulas/services/AulaServicio.java:28-31 | inserts the room unchecked under a fresh id |
| AulaServicio.Actualizar | src/main/java/es/juanbosco/ruben/reservaraulas/services/AulaServicio.java:33-43 | an unknown id returns the patch; otherwise stores the merge without re-checking, even a capacity below existing bookings |
| AulaServicio.MergeAulaRestricciones | src/main/java/es/juanbosco/ruben/reservaraulas/entities/Aula.java:27-36 | a patch with a blank name or a capacity that is not positive makes the merged room break the declared constraints, and nothing rejects it; a patch whose set fields meet them keeps a conforming room conforming |
| AulaServicio.Eliminar | src/main/java/es/juanbosco/ruben/reservaraulas/services/AulaServicio.java:45-47 | a room with bookings is not deleted (constraint violation) and never cascades; when no booking names it the delete succeeds and the room, if present, is removed; bookings never change |
| AulaServicio.ObtenerPorCapacidad | src/main/java/es/juanbosco/ruben/reservaraulas/repositories/AulaRepositorio.java:11 | exactly the rooms whose capacity is at least the bound |
| AulaServicio.ObtenerPorCapacidadMonotona | src/main/java/es/juanbosco/ruben/reservaraulas/services/AulaServicio.java:53-55 | raising the bound never adds rooms |
| AulaServicio.ObtenerAulasConOrdenador | src/main/java/es/juanbosco/ruben/reservaraulas/repositories/AulaRepositorio.java:13 | exactly the rooms whose computers flag equals the argument |
| AulaServicio.ObtenerAulasConOrdenadorParticion | src/main/java/es/juanbosco/ruben/reservaraulas/services/AulaServicio.java:57-59 | the two answers are disjoint, and together they cover every room whose flag is set |
| AulaServicio.ObtenerReservasDeAula | src/main/java/es/juanbosco/ruben/reservaraulas/services/AulaServicio.java:61-63 | the room's bookings are exactly those referencing it |
| ControllerReserva.Respuesta | src/main/java/es/juanbosco/ruben/reservaraulas/controllers/ControllerReserva.java:57-59 | an illegal-argument error becomes a 400 carrying its message; any other error becomes a 500 |
| ControllerReserva.DeleteReservaPorId | src/main/java/es/juanbosco/ruben/reservaraulas/controllers/ControllerReserva.java:35-60 | 204 exactly when the booking exists and the caller is admin or its owner; a non-owner teacher gets 403 and nothing changes; an unknown id gives 400 |
| ControllerReserva.CreateReserva | src/main/java/es/juanbosco/ruben/reservaraulas/controllers/ControllerReserva.java:63-80 | an unknown principal gives 400 "Usuario autenticado no encontrado"; otherwise the answer is the service's: 200 with the booking `guardar` admits for the form with the principal as owner, or the service error as `Respuesta` maps it; a created booking belongs to the principal whatever owner the body names, carries the body's fields and is inserted under a fresh id |
| ControllerReserva.UpdateReserva | src/main/java/es/juanbosco/ruben/reservaraulas/controllers/ControllerReserva.java:82-114 | a teacher gets 400 on an unknown id and 403 on another's booking; for an admin or the owner the answer is the service's: 200 with the patch back when an admin names an unknown id, 200 with the merge of the patch (owner set to the principal) when `actualizar` admits it, or its error as `Respuesta` maps it; a saved edit makes the principal the owner, even an admin editing another's booking |
| AuthController.NuevoRegistrado | src/main/java/es/juanbosco/ruben/reservaraulas/controllers/AuthController.java:72-76 | the new user has the given email and role, the encoded password, no name, and is enabled |
| AuthController.Register | src/main/java/es/juanbosco/ruben/reservaraulas/controllers/AuthController.java:55-87 | a taken email gives 400, checked before the role; an unknown role gives 400; 201 exactly when the email is free and the role is recognised, and then exactly one user is added |
| AuthController.RegistradoSinNombre | src/main/java/es/juanbosco/ruben/reservaraulas/entities/Usuario.java:28-30 | a registered user breaks the name constraint and would fail `validarUsuario` on the name |
| SecurityConfig.PrimeraCoincidencia | src/main/java/es/juanbosco/ruben/reservaraulas/config/SecurityConfig.java:33-60 | the index returned is of a matching rule and no earlier rule matches; no index means that no rule matches |
| SecurityConfig.SiempreHayRegla | src/main/java/es/juanbosco/ruben/reservaraulas/config/SecurityConfig.java:59 | every request matches some rule, since the last rule matches any path |
| SecurityConfig.DecideRegla | src/main/java/es/juanbosco/ruben/reservaraulas/config/SecurityConfig.java:33-60 | if rule i matches and no earlier rule matches, the decision is rule i's |
| SecurityConfig.SubarbolesDisjuntos | src/main/java/es/juanbosco/ruben/reservaraulas/config/SecurityConfig.java:35-56 | a path in one listed subtree is not in another |
| SecurityConfig.PermiteAccesos | src/main/java/es/juanbosco/ruben/reservaraulas/config/SecurityConfig.java:35-59 | permitAll admits anyone; hasAnyRole needs a principal holding a listed authority; authenticated needs a principal |
| SecurityConfig.RutasAulas | src/main/java/es/juanbosco/ruben/reservaraulas/config/SecurityConfig.java:38-41 | room GET needs either role; POST, PUT and DELETE need admin; any other method only needs a principal |
| SecurityConfig.RutasHorarios | src/main/java/es/juanbosco/ruben/reservaraulas/config/SecurityConfig.java:44-47 | the same for slot routes |
| SecurityConfig.RutasReservas | src/main/java/es/juanbosco/ruben/reservaraulas/config/SecurityConfig.java:50-53 | booking GET, POST, PUT and DELETE need either role; any other method only needs a principal |
| SecurityConfig.RutasUsuarios | src/main/java/es/juanbosco/ruben/reservaraulas/config/SecurityConfig.java:56 | every method on user routes needs either role, so a teacher passes the filter even for DELETE |
| SecurityConfig.RutasPublicas | src/main/java/es/juanbosco/ruben/reservaraulas/config/SecurityConfig.java:35-58 | the auth subtree and the root path admit anyone, whatever the method |
| SecurityConfig.RutasRestantes | src/main/java/es/juanbosco/ruben/reservaraulas/config/SecurityConfig.java:59 | any other path needs only a principal |

## Left out

- Bean validation is not enforced when a record is persisted. The column
  constraints are stated as predicates (`UsuarioCumpleRestricciones`,
  `AulaCumpleRestricciones`, `ReservaCumpleRestricciones`,
  `HorarioCumpleRestricciones`), and lemmas show which of them the services
  check and which they let through. A save that passes the code's own
  checks succeeds in the model. Registration stores a user without a name;
  whether the persistence layer refuses it is not modelled.
- Transactions, flushes and concurrency: each operation is atomic. The race
  between two bookings validated at the same time is not modelled.
- The JWT filter, login, the profile endpoint, password hashing, the
  authentication manager and CORS. The password encoder is a parameter of
  `Register`.
- The clock: `LocalDate.now()` and the creation timestamp are parameters.
- The read-only endpoints (`obtenerTodas`, `obtenerPorId`) are not modelled.
  They are plain repository reads.
- A client-supplied id in a create body, which JPA would turn into an update,
  and the id inside a room PUT body. Requests carry no id of their own.
- HorarioServicio.Guardar: requires that a given id is already stored (the
  controller's edit path). Saving under an unknown client id is not modelled.
- Room or slot objects embedded in a booking body without an id (the service
  would copy them as they are). A booking form holds ids only.
- MergeReserva: copies a creation timestamp the patch carries, as the
  bean copy does. Whether the persistence layer then writes that value on
  update is not modelled; on insert the generated timestamp (`ahora`) is
  used whatever the body says.
- Updates are modelled on values: the stored record is replaced by its merge.
  Aliasing of the managed JPA entity is not modelled.
- `SinSolapamientos` (no two bookings of a room overlap on a date) is proved
  preserved by booking create and edit. It is not a store invariant, because
  slot edits and room edits are not re-checked (`EditarHorarioPuedeSolapar`).
- Spring's path matcher internals: a subtree pattern matches its base path
  and everything below it. There is no normalisation of trailing slashes,
  case or encoded characters.
- A null `Authentication` in the controllers, which the filter rules rule out:
  the controllers take a principal.
- The 500 catch-all of `register` for a failing save, and the JSON body maps
  of its responses, which are reduced to the status and message.
- Request-body `@Valid` checks on `RegisterRequest`.
- ValidarReserva: visits the room's bookings in an unspecified order instead
  of the repository's list order. The result is the same, because every
  overlap raises the same error.
- Integer widths (`Integer`, `Long`) are unbounded here; ids come from one
  shared sequence.
