/** The type-system helpers of `types.c` that the symbol table calls. Their
    bodies are not part of this model, so they enter as an oracle: any
    functions of the right shape. */
module Types {
  import opened Wrappers
  import opened Defs

  /** `inttype(type)`, `ptrtype(type)` and `typesize(type, ctype)`. */
  datatype TypeOracle = TypeOracle(
    isInt: int -> bool,
    isPtr: int -> bool,
    size: (int, Option<Id>) -> int)
}
