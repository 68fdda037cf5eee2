/** The constants and the symbol record of the compiler's `defs.h`: the packed
    primitive-type encoding, the structural kinds, the storage classes and
    `struct symtable`. */
module Defs {
  import opened Wrappers

  /** Handle of a symbol record in the arena; stands for a `struct symtable *`. */
  type Id = nat

  // Primitive types. The base kind sits above the low four bits, which hold
  // the level of indirection (0 = value, 1 = pointer, 2 = pointer to pointer).
  const P_NONE: int := 0
  const P_VOID: int := 16
  const P_CHAR: int := 32
  const P_INT: int := 48
  const P_LONG: int := 64
  const P_STRUCT: int := 80
  const P_UNION: int := 96

  const BaseKinds: seq<int> := [P_NONE, P_VOID, P_CHAR, P_INT, P_LONG, P_STRUCT, P_UNION]

  // Structural types.
  const S_VARIABLE: int := 0
  const S_FUNCTION: int := 1
  const S_ARRAY: int := 2

  const StructuralKinds: seq<int> := [S_VARIABLE, S_FUNCTION, S_ARRAY]

  // Storage classes. They start at 1, so 0 is free to mean "any class".
  const C_GLOBAL: int := 1
  const C_LOCAL: int := 2
  const C_PARAM: int := 3
  const C_EXTERN: int := 4
  const C_STATIC: int := 5
  const C_STRUCT: int := 6
  const C_UNION: int := 7
  const C_MEMBER: int := 8
  const C_ENUMTYPE: int := 9
  const C_ENUMVAL: int := 10
  const C_TYPEDEF: int := 11

  const StorageClasses: seq<int> :=
    [C_GLOBAL, C_LOCAL, C_PARAM, C_EXTERN, C_STATIC, C_STRUCT, C_UNION,
     C_MEMBER, C_ENUMTYPE, C_ENUMVAL, C_TYPEDEF]

  /** `type & ~0xf`: the base kind of a packed type. On a two's-complement int,
      clearing the low four bits yields 16 * floor(t / 16), which is exactly
      Dafny's Euclidean `t - t % 16`, negative `t` included. */
  function BaseOf(t: int): (b: int)
    ensures b % 16 == 0
    ensures b <= t < b + 16
  {
    t - t % 16
  }

  /** `type & 0xf`: the indirection level of a packed type. */
  function Indirection(t: int): (d: int)
    ensures 0 <= d < 16
    ensures BaseOf(t) + d == t
  {
    t % 16
  }

  /** The exact test `type == P_STRUCT || type == P_UNION` of the `add*`
      constructors: a struct or union value, not a pointer to one. */
  predicate IsComposite(t: int)
  {
    t == P_STRUCT || t == P_UNION
  }

  /** `struct symtable`. The `next` link is not a field: a record's position in
      its owning catalog (a `seq<Id>`) plays that part. `member` is the chain of
      a function's parameters or a struct/union's members, empty for NULL.
      `size` is `None` while it is left unset. `posn` is the one integer slot
      that `st_posn`, `st_endlabel` and `st_hasaddr` all name. */
  datatype Sym = Sym(
    name: Option<string>,
    ptype: int,
    ctype: Option<Id>,
    stype: int,
    sclass: int,
    size: Option<int>,
    nelems: int,
    posn: int,
    member: seq<Id>)
  {
    /** `st_endlabel`: the slot read as a function's end label. */
    function EndLabel(): int { posn }

    /** `st_hasaddr`: the slot read as a local's address-taken flag. */
    function HasAddr(): int { posn }

    function WithPosn(v: int): Sym { this.(posn := v) }

    function WithEndLabel(v: int): Sym { this.(posn := v) }

    function WithHasAddr(v: int): Sym { this.(posn := v) }
  }

  /** The base kinds are pairwise distinct multiples of 16, and a base kind
      plus an indirection level below 16 splits back into exactly those two. */
  lemma TypeEncodingRoundTrip(b: int, d: int)
    requires b in BaseKinds
    requires 0 <= d < 16
    ensures BaseOf(b + d) == b
    ensures Indirection(b + d) == d
  {
    var t := b + d;
    assert b % 16 == 0;
    assert BaseOf(t) % 16 == 0 && BaseOf(t) <= t < BaseOf(t) + 16;
    BaseUnique(BaseOf(t), b, t);
  }

  /** Two multiples of 16 within 16 below the same value are equal. */
  lemma BaseUnique(b1: int, b2: int, t: int)
    requires b1 % 16 == 0 && b2 % 16 == 0
    requires b1 <= t < b1 + 16
    requires b2 <= t < b2 + 16
    ensures b1 == b2
  {
    var q1, q2 := b1 / 16, b2 / 16;
    assert b1 == 16 * q1 && b2 == 16 * q2;
    assert -16 < b1 - b2 < 16;
    assert -1 < q1 - q2 < 1;
  }

  /** The base kinds are distinct multiples of 16. */
  lemma BaseKindsDistinct()
    ensures forall i, j | 0 <= i < j < |BaseKinds| :: BaseKinds[i] != BaseKinds[j]
    ensures forall i | 0 <= i < |BaseKinds| :: BaseKinds[i] % 16 == 0
  {
  }

  /** The storage classes are pairwise distinct and none of them is 0, the
      wildcard of the lookup in a catalog. */
  lemma StorageClassesDistinctNonZero()
    ensures forall i, j | 0 <= i < j < |StorageClasses| :: StorageClasses[i] != StorageClasses[j]
    ensures 0 !in StorageClasses
  {
  }

  /** The structural kinds are the three distinct values 0, 1 and 2. */
  lemma StructuralKindsDistinct()
    ensures StructuralKinds == [0, 1, 2]
    ensures forall i, j | 0 <= i < j < |StructuralKinds| :: StructuralKinds[i] != StructuralKinds[j]
  {
  }

  /** `st_endlabel`, `st_hasaddr` and `st_posn` are one slot: a write under any
      alias is what every alias reads, and no other field changes. */
  lemma PosnAliasesShareOneSlot(s: Sym, v: int)
    ensures s.WithEndLabel(v).HasAddr() == v && s.WithEndLabel(v).posn == v
    ensures s.WithHasAddr(v).EndLabel() == v && s.WithHasAddr(v).posn == v
    ensures s.WithPosn(v).EndLabel() == v && s.WithPosn(v).HasAddr() == v
    ensures s.WithEndLabel(v) == s.WithHasAddr(v) == s.WithPosn(v)
    ensures s.WithPosn(v).(posn := s.posn) == s
  {
  }
}
