/** The symbol-table state of `data.h`: eight head/tail catalogs and the
    current-function pointer `Functionid`, over an arena that owns every
    record ever built. */
module Data {
  import opened Wrappers
  import opened Defs

  /** The eight catalogs, one per head/tail pair:
      Globhead, Loclhead, Parmhead, Membhead, Structhead, Unionhead, Enumhead, Typehead. */
  datatype Catalog = Glob | Locl | Parm | Memb | Struct | Union | Enum | Typedef

  /** The head pointer of a catalog. */
  function Head(l: seq<Id>): Option<Id>
  {
    if |l| == 0 then None else Some(l[0])
  }

  /** The tail pointer of a catalog. */
  function Tail(l: seq<Id>): Option<Id>
  {
    if |l| == 0 then None else Some(l[|l| - 1])
  }

  ghost predicate Distinct(l: seq<Id>)
  {
    forall i, j | 0 <= i < j < |l| :: l[i] != l[j]
  }

  /** `a` is `b` with some of its elements left out and the rest in their
      original order. */
  predicate Subsequence(a: seq<Id>, b: seq<Id>)
    decreases |b|
  {
    if |b| == 0 then |a| == 0
    else Subsequence(a, b[1..]) || (|a| > 0 && a[0] == b[0] && Subsequence(a[1..], b[1..]))
  }

  /** The whole symbol table. `arena` holds every record that `newsym` ever
      built (nothing is freed); `nextId` is the next handle `malloc` hands out.
      Each catalog lists its records from head to tail. */
  datatype SymTable = SymTable(
    arena: map<Id, Sym>,
    nextId: Id,
    glob: seq<Id>,
    locl: seq<Id>,
    parm: seq<Id>,
    memb: seq<Id>,
    structs: seq<Id>,
    unions: seq<Id>,
    enums: seq<Id>,
    typedefs: seq<Id>,
    functionid: Option<Id>)
  {
    function List(c: Catalog): seq<Id>
    {
      match c
      case Glob => glob
      case Locl => locl
      case Parm => parm
      case Memb => memb
      case Struct => structs
      case Union => unions
      case Enum => enums
      case Typedef => typedefs
    }

    /** The table with catalog `c` replaced by `l` and everything else as it was. */
    function WithList(c: Catalog, l: seq<Id>): (t: SymTable)
      ensures t.List(c) == l
      ensures forall c' | c' != c :: t.List(c') == List(c')
      ensures t.arena == arena && t.nextId == nextId && t.functionid == functionid
    {
      match c
      case Glob => this.(glob := l)
      case Locl => this.(locl := l)
      case Parm => this.(parm := l)
      case Memb => this.(memb := l)
      case Struct => this.(structs := l)
      case Union => this.(unions := l)
      case Enum => this.(enums := l)
      case Typedef => this.(typedefs := l)
    }

    /** The catalog `c` with `id` linked in after its tail. */
    function Append(c: Catalog, id: Id): SymTable
    {
      WithList(c, List(c) + [id])
    }

    /** The parameter/member chain of the current function: `Functionid->member`
        while `Functionid` is set, nothing otherwise. */
    function ParamChain(): (p: seq<Id>)
      ensures functionid.None? ==> p == []
      ensures functionid.Some? && functionid.value in arena ==> p == arena[functionid.value].member
      ensures (forall id, i | id in arena && 0 <= i < |arena[id].member| :: arena[id].member[i] in arena) ==>
        forall i | 0 <= i < |p| :: p[i] in arena
    {
      if functionid.Some? && functionid.value in arena then arena[functionid.value].member
      else []
    }

    /** The shape every reachable table has: catalogs and chains refer to
        built records only, every record is owned by at most one catalog and
        appears there once, and no handle at or above `nextId` is in use. */
    ghost predicate Valid()
    {
      && (forall id | id in arena :: id < nextId)
      && (forall c: Catalog, i | 0 <= i < |List(c)| :: List(c)[i] in arena)
      && (forall c: Catalog :: Distinct(List(c)))
      && (forall c1: Catalog, c2: Catalog, i | c1 != c2 && 0 <= i < |List(c1)| :: List(c1)[i] !in List(c2))
      && (forall id, i | id in arena && 0 <= i < |arena[id].member| :: arena[id].member[i] in arena)
      && (functionid.Some? ==> functionid.value in arena)
    }
  }

  /** The table before any declaration has been seen. */
  const EmptyTable: SymTable := SymTable(map[], 0, [], [], [], [], [], [], [], [], None)
}
