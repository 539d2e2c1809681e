/** Shared vocabulary of the booking service: optional values (Java's nullable
    references), results of operations, the errors the services raise and the
    text helpers the validators use. */
module Common {

  /** A nullable field: `None` stands for Java's `null`. */
  datatype Option<+T> = None | Some(value: T) {
    function GetOr(default: T): T {
      match this
      case Some(v) => v
      case None => default
    }
  }

  /** The value an operation returns, or the exception it throws. */
  datatype Result<+T> = Ok(value: T) | Err(error: Error)

  /** The result of a `void` operation: it completes or it throws. */
  datatype Outcome = Pass | Fail(error: Error)

  /** Every exception the modelled code can end in. All but the last two are
      `IllegalArgumentException`s, which the controllers turn into 400
      responses carrying `Message`; `NullPointer` (a dereference of a null
      field) and `ConstraintViolation` (a foreign-key or unique-column
      violation raised by the database) escape the controllers as 500s. */
  datatype Error =
    | HorarioRequerido
    | HorarioNoEncontrado
    | AulaNoEncontrada
    | AulaNoEncontradaId
    | FechaPasada
    | CapacidadSuperada
    | Solapamiento
    | ReservaNoEncontrada
    | HorasRequeridas
    | FinNoPosterior
    | HorarioNulo
    | UsuarioNoEncontrado
    | UsuarioAutenticadoNoEncontrado
    | NombreObligatorio
    | RolObligatorio
    | RolInvalido
    | EmailObligatorio
    | PasswordObligatoria
    | AutoridadSinTexto
    | NullPointer
    | ConstraintViolation
  {
    /** True for the exceptions thrown as `IllegalArgumentException`. */
    predicate IsIllegalArgument() {
      !NullPointer? && !ConstraintViolation?
    }

    /** The exception's message, as the 400 response body carries it. */
    function Message(): string {
      match this
      case HorarioRequerido =>
        "La reserva debe referenciar un horario existente (horario.id). No se creará un horario nuevo al guardar la reserva."
      case HorarioNoEncontrado => "Horario no encontrado para el id proporcionado"
      case AulaNoEncontrada => "Aula no encontrada"
      case AulaNoEncontradaId => "Aula no encontrada para el id proporcionado"
      case FechaPasada => "No se pueden hacer reservas en el pasado."
      case CapacidadSuperada => "El número de asistentes supera la capacidad del aula."
      case Solapamiento => "La reserva se solapa con otra reserva existente en el mismo aula y horario."
      case ReservaNoEncontrada => "Reserva no encontrada"
      case HorasRequeridas => "Debe especificar hora de inicio y hora de fin."
      case FinNoPosterior => "La hora de fin debe ser posterior a la hora de inicio."
      case HorarioNulo => "Horario no encontrado"
      case UsuarioNoEncontrado => "Usuario no encontrado"
      case UsuarioAutenticadoNoEncontrado => "Usuario autenticado no encontrado"
      case NombreObligatorio => "El nombre es obligatorio"
      case RolObligatorio => "El rol es obligatorio"
      case RolInvalido => "El rol debe ser 'ROLE_ADMIN' o 'ROLE_PROFESOR'"
      case EmailObligatorio => "El email es obligatorio"
      case PasswordObligatoria => "La contraseña es obligatoria"
      case AutoridadSinTexto => "A granted authority textual representation is required"
      case NullPointer => ""
      case ConstraintViolation => ""
    }
  }

  /** What an `actualizar` returns: the record it saved, or, when no record
      has the id, the patch it was given, untouched. */
  datatype Actualizacion<+T, +P> = Guardada(valor: T) | SinCambios(patch: P)

  /** An HTTP response as the controllers build it. */
  datatype Response<+T> =
    | Status200(body: T)
    | Status201
    | Status204
    | Status400(message: string)
    | Status403(message: string)
    | Status500

  /** `Character.isWhitespace`: the ASCII separators, the file/group/record/unit
      separators and the Unicode space, line and paragraph separators other
      than the non-breaking ones. */
  predicate IsWhitespace(c: char) {
    || c == ' ' || c == '\t' || c == '\n' || c == '\r'
    || c == '\U{000B}' || c == '\U{000C}'
    || ('\U{001C}' <= c <= '\U{001F}')
    || c == '\U{1680}' || ('\U{2000}' <= c <= '\U{2006}') || ('\U{2008}' <= c <= '\U{200A}')
    || c == '\U{2028}' || c == '\U{2029}' || c == '\U{205F}' || c == '\U{3000}'
  }

  /** `String.isBlank`: empty or whitespace only. */
  predicate IsBlank(s: string) {
    forall i :: 0 <= i < |s| ==> IsWhitespace(s[i])
  }

  /** The `x == null || x.isBlank()` test the validators apply to text fields. */
  predicate Missing(s: Option<string>) {
    s.None? || IsBlank(s.value)
  }

  /** Some element of a non-empty set of ids: the next one a walk over the
      set visits. */
  method Elegir(s: set<int>) returns (k: int)
    requires s != {}
    ensures k in s
  {
    // Spelling out the empty case lets the verifier see that `:|` below has
    // a witness: `s != {}` alone does not hand it one.
    if forall x | x in s :: false {
      assert false;
    }
    k :| k in s;
  }
}
