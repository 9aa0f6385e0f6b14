/** Values shared by every part of the model: nullable references, the
    failures the services raise as ResponseStatusException, and the Java
    integer widths that matter. */
module Wrappers {

  /** A Java reference that may be null. */
  datatype Option<+T> = None | Some(value: T) {
    function GetOr(default: T): T {
      match this
      case Some(v) => v
      case None => default
    }
  }

  /** The HTTP status carried by a ResponseStatusException. InternalError
      stands for exceptions that are not ResponseStatusException and reach
      the caller as a server error. */
  datatype Status = BadRequest | NotFound | Conflict | InternalError

  /** A thrown ResponseStatusException: its status and its reason text. */
  datatype Falha = Falha(status: Status, motivo: string)

  /** The outcome of a service call: its return value, or the exception it throws. */
  datatype Result<+T> = Ok(value: T) | Err(falha: Falha)

  /** Java's `int`. */
  newtype int32 = x: int | -0x8000_0000 <= x < 0x8000_0000

  /** Java's signed `byte`. */
  newtype int8 = x: int | -0x80 <= x < 0x80

  /** The value of a Java `int` expression whose exact result is `x`: two's
      complement wrap-around to 32 bits. */
  function Wrap32(x: int): (r: int32)
    ensures -0x8000_0000 <= x < 0x8000_0000 ==> r as int == x
    ensures (r as int - x) % 0x1_0000_0000 == 0
  {
    var m := x % 0x1_0000_0000;
    if m < 0x8000_0000 then m as int32 else (m - 0x1_0000_0000) as int32
  }
}
