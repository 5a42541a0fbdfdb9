/** Why an interface file was rejected. The verbatim file and the numeric cause are dropped. */
module Errors {

  datatype ParseError =
    | Missing(field: string)
    | Excess
    | Invalid(field: string, value: string)
}
