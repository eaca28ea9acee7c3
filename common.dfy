/** Types shared by every part of the model: bytes, the errors the class can throw,
    and the failure-compatible wrappers that stand for a JavaScript `throw`. */
module Common {

  /** One element of a Node `Buffer` (a `Uint8Array`). */
  type Byte = b: int | 0 <= b < 256

  /** The exceptions the modelled code can raise.
      - TypeError: a property of `null` was read or called (an unset buffer), or a Node
        Buffer primitive rejected an argument that is not a buffer.
      - RangeError: a Node Buffer primitive rejected an offset or a size.
      - NotEnoughMemory: the `Error('Not enough memory available!')` thrown by `append`. */
  datatype Error = TypeError | RangeError | NotEnoughMemory

  /** The JavaScript `undefined`-or-value of a lookup. */
  datatype Option<+T> = None | Some(value: T)

  /** A call that either returns a value or throws. */
  datatype Result<+T> = Success(value: T) | Failure(error: Error)

  /** A call returning nothing (`void`) that may throw. */
  datatype Outcome = Pass | Fail(error: Error)

  /** A position moved into `[0, length]`, as both classes' `fixIndex` moves the cursor. */
  function Clamp(i: int, length: nat): (c: nat)
    ensures c <= length
    ensures 0 <= i <= length ==> c == i
    ensures i < 0 ==> c == 0
    ensures i > length ==> c == length
  {
    if i < 0 then 0 else if i > length then length else i
  }

  function Min(a: int, b: int): int { if a <= b then a else b }

  function Max(a: int, b: int): int { if a >= b then a else b }
}
