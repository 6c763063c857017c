/**
 * The error kinds a run can end with. The first four are the classes the
 * action throws itself; the last two are what the JavaScript engine throws
 * when the code reads a property of `null`/`undefined` or calls a non-function
 * (`TypeError`) and when `JSON.parse` rejects its input (`SyntaxError`).
 * The engine's own wording of those two messages is not modelled.
 */
module Errors {

  datatype Error =
    | ArgumentError(message: string)
    | ParseError(message: string)
    | ValidationError(message: string)
    | ApiError(message: string)
    | TypeError
    | SyntaxError
}
