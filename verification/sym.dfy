/** The operations of `sym.c` over the table of `Data`: appending to a
    catalog, building records, the eight `add*` constructors, name
    resolution, and the lifecycle resets. */
module Symbols {
  import opened Wrappers
  import opened Defs
  import opened Types
  import opened Data

  const APPEND_NULL_MSG: string := "Either head, tail or node is NULL in appendsym"

  /** A record just built and appended, with the table that now holds it. */
  datatype Added = Added(table: SymTable, id: Id)

  // ---------------------------------------------------------------------------
  // appendsym

  /** `appendsym(head, tail, node)`: link `node` after the tail of the catalog
      whose head/tail pair is `cat`. A missing pair or node is fatal. The node
      must not be on any catalog yet: every caller passes a record `newsym`
      has just built, and relinking a node already on a list would cut that
      list short at the node. */
  function AppendSym(st: SymTable, cat: Option<Catalog>, node: Option<Id>): (r: Result<SymTable>)
    requires node.Some? ==> forall c: Catalog :: node.value !in st.List(c)
    ensures r.Fatal? <==> cat.None? || node.None?
    ensures r.Fatal? ==> r.msg == APPEND_NULL_MSG
    ensures r.Ok? ==> r.value.List(cat.value) == st.List(cat.value) + [node.value]
    ensures r.Ok? ==> Tail(r.value.List(cat.value)) == node
    ensures r.Ok? && |st.List(cat.value)| == 0 ==> Head(r.value.List(cat.value)) == node
    ensures r.Ok? && |st.List(cat.value)| > 0 ==> Head(r.value.List(cat.value)) == Head(st.List(cat.value))
    ensures r.Ok? ==> forall c | c != cat.value :: r.value.List(c) == st.List(c)
    ensures r.Ok? ==> r.value.arena == st.arena && r.value.functionid == st.functionid
    ensures r.Ok? ==> r.value.nextId == st.nextId
  {
    if cat.None? || node.None? then Fatal(APPEND_NULL_MSG)
    else Ok(st.Append(cat.value, node.value))
  }

  // ---------------------------------------------------------------------------
  // newsym and the add* constructors

  /** `newsym`: a record holding the given fields, with no member chain. The
      size is set to `nelems * typesize(type, ctype)` only for pointer and
      integer types; otherwise it is left unset. */
  function NewSym(ts: TypeOracle, name: Option<string>, ptype: int, ctype: Option<Id>,
                  stype: int, sclass: int, nelems: int, posn: int): (s: Sym)
    ensures s.name == name && s.ptype == ptype && s.ctype == ctype
    ensures s.stype == stype && s.sclass == sclass && s.nelems == nelems && s.posn == posn
    ensures s.member == []
    ensures s.size.Some? <==> ts.isPtr(ptype) || ts.isInt(ptype)
    ensures s.size.Some? ==> s.size.value == nelems * ts.size(ptype, ctype)
  {
    var size := if ts.isPtr(ptype) || ts.isInt(ptype) then Some(nelems * ts.size(ptype, ctype)) else None;
    Sym(name, ptype, ctype, stype, sclass, size, nelems, posn, [])
  }

  /** What every `add*` does to the table: the record gets the next free
      handle, the arena gains it and nothing else, catalog `c` gains it at
      its tail, and the other seven catalogs and `Functionid` stay put. */
  ghost predicate AddedTo(st: SymTable, r: Added, c: Catalog)
  {
    && r.id == st.nextId
    && r.table.nextId == st.nextId + 1
    && r.id in r.table.arena
    && r.table.arena == st.arena[r.id := r.table.arena[r.id]]
    && r.table.List(c) == st.List(c) + [r.id]
    && (forall c' | c' != c :: r.table.List(c') == st.List(c'))
    && r.table.functionid == st.functionid
  }

  /** Allocate `s` under the next free handle and append it to catalog `c`. */
  function Install(st: SymTable, c: Catalog, s: Sym): (r: Added)
    ensures AddedTo(st, r, c)
    ensures r.table.arena[r.id] == s
    ensures st.Valid() && (forall i | 0 <= i < |s.member| :: s.member[i] in st.arena) ==> r.table.Valid()
  {
    var id := st.nextId;
    var t := st.(arena := st.arena[id := s], nextId := id + 1);
    var r := Added(t.Append(c, id), id);
    InstallKeepsValid(st, c, s, r);
    r
  }

  lemma InstallKeepsValid(st: SymTable, c: Catalog, s: Sym, r: Added)
    requires r.id == st.nextId
    requires r.table == st.(arena := st.arena[r.id := s], nextId := r.id + 1).Append(c, r.id)
    ensures st.Valid() && (forall i | 0 <= i < |s.member| :: s.member[i] in st.arena) ==> r.table.Valid()
  {
    if !(st.Valid() && (forall i | 0 <= i < |s.member| :: s.member[i] in st.arena)) { return; }
    var t := r.table;
    assert r.id !in st.arena;
    assert t.List(c) == st.List(c) + [r.id];
    assert forall c1 | c1 != c :: t.List(c1) == st.List(c1);
    assert t.arena == st.arena[r.id := s];
    InstallListsFresh(st, c, r.id, t);
    forall id, i | id in t.arena && 0 <= i < |t.arena[id].member|
      ensures t.arena[id].member[i] in t.arena
    {
      if id != r.id {
        assert st.arena[id].member[i] in st.arena;
      }
    }
  }

  /** The catalog part of `Valid` survives appending a handle no catalog or
      record uses yet. */
  lemma InstallListsFresh(st: SymTable, c: Catalog, id: Id, t: SymTable)
    requires st.Valid()
    requires id !in st.arena
    requires id in t.arena && st.arena.Keys <= t.arena.Keys
    requires t.List(c) == st.List(c) + [id]
    requires forall c1 | c1 != c :: t.List(c1) == st.List(c1)
    ensures forall c1: Catalog, i | 0 <= i < |t.List(c1)| :: t.List(c1)[i] in t.arena
    ensures forall c1: Catalog :: Distinct(t.List(c1))
    ensures forall c1: Catalog, c2: Catalog, i | c1 != c2 && 0 <= i < |t.List(c1)| :: t.List(c1)[i] !in t.List(c2)
  {
    forall c1: Catalog
      ensures forall i | 0 <= i < |t.List(c1)| :: t.List(c1)[i] in t.arena
      ensures Distinct(t.List(c1))
    {
      var l := st.List(c1);
      assert forall i | 0 <= i < |l| :: l[i] in st.arena;
      assert Distinct(l);
      if c1 == c {
        assert id !in l;
        AppendFresh(l, id, st.arena, t.arena);
      }
    }
    forall c1: Catalog, c2: Catalog, i | c1 != c2 && 0 <= i < |t.List(c1)|
      ensures t.List(c1)[i] !in t.List(c2)
    {
      if t.List(c1)[i] != id {
        assert c1 == c ==> i < |st.List(c)|;
        assert t.List(c1)[i] == st.List(c1)[i];
        assert st.List(c1)[i] !in st.List(c2);
      } else {
        assert id !in st.List(c2);
      }
    }
  }

  /** One catalog after appending a handle it does not hold yet. */
  lemma AppendFresh(l: seq<Id>, id: Id, arena: map<Id, Sym>, arena': map<Id, Sym>)
    requires Distinct(l) && id !in l
    requires forall i | 0 <= i < |l| :: l[i] in arena
    requires arena.Keys <= arena'.Keys && id in arena'
    ensures Distinct(l + [id])
    ensures forall i | 0 <= i < |l + [id]| :: (l + [id])[i] in arena'
  {
  }

  /** `newsym` followed by the struct/union size copy of `addglob`, `addlocl`
      and `addmemb`. */
  function SizedSym(st: SymTable, ts: TypeOracle, name: Option<string>, ptype: int, ctype: Option<Id>,
                    stype: int, sclass: int, nelems: int, posn: int): (s: Sym)
    requires IsComposite(ptype) ==> ctype.Some? && ctype.value in st.arena
    ensures s.(size := NewSym(ts, name, ptype, ctype, stype, sclass, nelems, posn).size)
         == NewSym(ts, name, ptype, ctype, stype, sclass, nelems, posn)
    ensures IsComposite(ptype) ==> s.size == st.arena[ctype.value].size
    ensures !IsComposite(ptype) ==> s == NewSym(ts, name, ptype, ctype, stype, sclass, nelems, posn)
  {
    var s := NewSym(ts, name, ptype, ctype, stype, sclass, nelems, posn);
    if IsComposite(ptype) then s.(size := st.arena[ctype.value].size) else s
  }

  /** `addglob`: a global (or extern/static) record with the caller's class,
      element count and position; a struct/union value takes the size of
      its composite type's record. */
  function AddGlob(st: SymTable, ts: TypeOracle, name: Option<string>, ptype: int, ctype: Option<Id>,
                   stype: int, sclass: int, nelems: int, posn: int): (r: Added)
    requires IsComposite(ptype) ==> ctype.Some? && ctype.value in st.arena
    ensures AddedTo(st, r, Glob)
    ensures r.table.arena[r.id] == NewSym(ts, name, ptype, ctype, stype, sclass, nelems, posn).(size := r.table.arena[r.id].size)
    ensures IsComposite(ptype) ==> r.table.arena[r.id].size == st.arena[ctype.value].size
    ensures !IsComposite(ptype) ==> r.table.arena[r.id].size == NewSym(ts, name, ptype, ctype, stype, sclass, nelems, posn).size
    ensures st.Valid() ==> r.table.Valid()
  {
    Install(st, Glob, SizedSym(st, ts, name, ptype, ctype, stype, sclass, nelems, posn))
  }

  /** `addlocl`: a C_LOCAL record at position 0, sized like `addglob`. */
  function AddLocl(st: SymTable, ts: TypeOracle, name: Option<string>, ptype: int, ctype: Option<Id>,
                   stype: int, nelems: int): (r: Added)
    requires IsComposite(ptype) ==> ctype.Some? && ctype.value in st.arena
    ensures AddedTo(st, r, Locl)
    ensures r.table.arena[r.id] == NewSym(ts, name, ptype, ctype, stype, C_LOCAL, nelems, 0).(size := r.table.arena[r.id].size)
    ensures IsComposite(ptype) ==> r.table.arena[r.id].size == st.arena[ctype.value].size
    ensures !IsComposite(ptype) ==> r.table.arena[r.id].size == NewSym(ts, name, ptype, ctype, stype, C_LOCAL, nelems, 0).size
    ensures st.Valid() ==> r.table.Valid()
  {
    Install(st, Locl, SizedSym(st, ts, name, ptype, ctype, stype, C_LOCAL, nelems, 0))
  }

  /** `addparm`: a C_PARAM record with one element at position 0. No size is
      copied from a composite type, so a struct parameter's size is whatever
      `newsym` made of it. */
  function AddParm(st: SymTable, ts: TypeOracle, name: Option<string>, ptype: int, ctype: Option<Id>,
                   stype: int): (r: Added)
    ensures AddedTo(st, r, Parm)
    ensures r.table.arena[r.id] == NewSym(ts, name, ptype, ctype, stype, C_PARAM, 1, 0)
    ensures r.table.arena[r.id].sclass == C_PARAM && r.table.arena[r.id].nelems == 1 && r.table.arena[r.id].posn == 0
    ensures st.Valid() ==> r.table.Valid()
  {
    Install(st, Parm, NewSym(ts, name, ptype, ctype, stype, C_PARAM, 1, 0))
  }

  /** `addmemb`: a C_MEMBER record at offset 0 on the member staging list,
      sized like `addglob`. */
  function AddMemb(st: SymTable, ts: TypeOracle, name: Option<string>, ptype: int, ctype: Option<Id>,
                   stype: int, nelems: int): (r: Added)
    requires IsComposite(ptype) ==> ctype.Some? && ctype.value in st.arena
    ensures AddedTo(st, r, Memb)
    ensures r.table.arena[r.id] == NewSym(ts, name, ptype, ctype, stype, C_MEMBER, nelems, 0).(size := r.table.arena[r.id].size)
    ensures IsComposite(ptype) ==> r.table.arena[r.id].size == st.arena[ctype.value].size
    ensures !IsComposite(ptype) ==> r.table.arena[r.id].size == NewSym(ts, name, ptype, ctype, stype, C_MEMBER, nelems, 0).size
    ensures st.Valid() ==> r.table.Valid()
  {
    Install(st, Memb, SizedSym(st, ts, name, ptype, ctype, stype, C_MEMBER, nelems, 0))
  }

  /** `addstruct`: a C_STRUCT tag of type P_STRUCT with no composite pointer. */
  function AddStruct(st: SymTable, ts: TypeOracle, name: Option<string>): (r: Added)
    ensures AddedTo(st, r, Struct)
    ensures r.table.arena[r.id] == NewSym(ts, name, P_STRUCT, None, 0, C_STRUCT, 0, 0)
    ensures st.Valid() ==> r.table.Valid()
  {
    Install(st, Struct, NewSym(ts, name, P_STRUCT, None, 0, C_STRUCT, 0, 0))
  }

  /** `addunion`: a C_UNION tag of type P_UNION with no composite pointer. */
  function AddUnion(st: SymTable, ts: TypeOracle, name: Option<string>): (r: Added)
    ensures AddedTo(st, r, Union)
    ensures r.table.arena[r.id] == NewSym(ts, name, P_UNION, None, 0, C_UNION, 0, 0)
    ensures st.Valid() ==> r.table.Valid()
  {
    Install(st, Union, NewSym(ts, name, P_UNION, None, 0, C_UNION, 0, 0))
  }

  /** `addenum`: an enum type or value of type P_INT whose value lives in the
      position slot. */
  function AddEnum(st: SymTable, ts: TypeOracle, name: Option<string>, sclass: int, value: int): (r: Added)
    ensures AddedTo(st, r, Enum)
    ensures r.table.arena[r.id] == NewSym(ts, name, P_INT, None, 0, sclass, 0, value)
    ensures r.table.arena[r.id].ptype == P_INT && r.table.arena[r.id].posn == value
    ensures st.Valid() ==> r.table.Valid()
  {
    Install(st, Enum, NewSym(ts, name, P_INT, None, 0, sclass, 0, value))
  }

  /** `addtypedef`: a C_TYPEDEF record for the given type. */
  function AddTypedef(st: SymTable, ts: TypeOracle, name: Option<string>, ptype: int, ctype: Option<Id>): (r: Added)
    ensures AddedTo(st, r, Typedef)
    ensures r.table.arena[r.id] == NewSym(ts, name, ptype, ctype, 0, C_TYPEDEF, 0, 0)
    ensures st.Valid() ==> r.table.Valid()
  {
    Install(st, Typedef, NewSym(ts, name, ptype, ctype, 0, C_TYPEDEF, 0, 0))
  }

  // ---------------------------------------------------------------------------
  // findsyminlist and the find* wrappers

  /** The record `id` answers a lookup of `s`: it has a name, the name is `s`,
      and its class is `sclass` unless `sclass` is the wildcard 0. */
  predicate Matches(arena: map<Id, Sym>, id: Id, s: string, sclass: int)
  {
    id in arena && arena[id].name == Some(s) && (sclass == 0 || sclass == arena[id].sclass)
  }

  /** `l[i]` is the first record of `l` that answers the lookup. */
  ghost predicate FirstMatch(arena: map<Id, Sym>, l: seq<Id>, s: string, sclass: int, i: int)
  {
    && 0 <= i < |l|
    && Matches(arena, l[i], s, sclass)
    && (forall j | 0 <= j < i :: !Matches(arena, l[j], s, sclass))
  }

  /** `r` is what a first-match scan of `l` must return. */
  ghost predicate Resolves(arena: map<Id, Sym>, l: seq<Id>, s: string, sclass: int, r: Option<Id>)
  {
    && (r.None? <==> forall i | 0 <= i < |l| :: !Matches(arena, l[i], s, sclass))
    && (r.Some? ==> exists i :: FirstMatch(arena, l, s, sclass, i) && l[i] == r.value)
  }

  lemma FirstMatchShift(arena: map<Id, Sym>, l: seq<Id>, s: string, sclass: int)
    requires |l| > 0 && !Matches(arena, l[0], s, sclass)
    ensures forall i | FirstMatch(arena, l[1..], s, sclass, i) :: FirstMatch(arena, l, s, sclass, i + 1)
  {
    forall i | FirstMatch(arena, l[1..], s, sclass, i)
      ensures FirstMatch(arena, l, s, sclass, i + 1)
    {
      forall j | 0 <= j < i + 1
        ensures !Matches(arena, l[j], s, sclass)
      {
        if j > 0 { assert l[j] == l[1..][j - 1]; }
      }
    }
  }

  /** `findsyminlist(s, list, class)`: walk the list from its head and return
      the first record that answers the lookup, or NULL. */
  function FindSymInList(arena: map<Id, Sym>, l: seq<Id>, s: string, sclass: int): (r: Option<Id>)
    ensures Resolves(arena, l, s, sclass, r)
    decreases |l|
  {
    if |l| == 0 then None
    else if Matches(arena, l[0], s, sclass) then
      assert FirstMatch(arena, l, s, sclass, 0);
      Some(l[0])
    else
      var r := FindSymInList(arena, l[1..], s, sclass);
      FirstMatchShift(arena, l, s, sclass);
      assert forall i | 1 <= i < |l| :: l[i] == l[1..][i - 1];
      r
  }

  /** The first-match specification pins the answer down: two results that
      both satisfy it are the same. */
  lemma ResolvesUnique(arena: map<Id, Sym>, l: seq<Id>, s: string, sclass: int, r1: Option<Id>, r2: Option<Id>)
    requires Resolves(arena, l, s, sclass, r1)
    requires Resolves(arena, l, s, sclass, r2)
    ensures r1 == r2
  {
    if r1.Some? {
      var i :| FirstMatch(arena, l, s, sclass, i) && l[i] == r1.value;
      var j :| FirstMatch(arena, l, s, sclass, j) && l[j] == r2.value;
      assert !(i < j) && !(j < i);
    }
  }

  /** Searching `a + b` is searching `a`, then `b` if `a` had no hit. */
  lemma FindInConcat(arena: map<Id, Sym>, a: seq<Id>, b: seq<Id>, s: string, sclass: int)
    ensures FindSymInList(arena, a + b, s, sclass)
         == (var ra := FindSymInList(arena, a, s, sclass);
             if ra.Some? then ra else FindSymInList(arena, b, s, sclass))
  {
    var ra := FindSymInList(arena, a, s, sclass);
    var rb := FindSymInList(arena, b, s, sclass);
    var want := if ra.Some? then ra else rb;
    var ab := a + b;
    if ra.Some? {
      var i :| FirstMatch(arena, a, s, sclass, i) && a[i] == ra.value;
      assert FirstMatch(arena, ab, s, sclass, i);
    } else if rb.Some? {
      var i :| FirstMatch(arena, b, s, sclass, i) && b[i] == rb.value;
      assert ab[|a| + i] == b[i];
      forall j | 0 <= j < |a| + i ensures !Matches(arena, ab[j], s, sclass) {
        if j >= |a| { assert ab[j] == b[j - |a|]; }
      }
      assert FirstMatch(arena, ab, s, sclass, |a| + i);
    } else {
      forall j | 0 <= j < |ab| ensures !Matches(arena, ab[j], s, sclass) {
        if j >= |a| { assert ab[j] == b[j - |a|]; }
      }
    }
    assert Resolves(arena, ab, s, sclass, want);
    ResolvesUnique(arena, ab, s, sclass, FindSymInList(arena, ab, s, sclass), want);
  }

  /** A lookup in `l` only looks at the records `l` holds: building a record
      under a handle outside `l` does not change it. */
  lemma FindIgnoresOtherRecords(arena: map<Id, Sym>, l: seq<Id>, s: string, sclass: int, id: Id, sym: Sym)
    requires id !in l
    ensures FindSymInList(arena[id := sym], l, s, sclass) == FindSymInList(arena, l, s, sclass)
  {
    var arena' := arena[id := sym];
    var r := FindSymInList(arena, l, s, sclass);
    assert forall i | 0 <= i < |l| :: Matches(arena', l[i], s, sclass) == Matches(arena, l[i], s, sclass);
    if r.Some? {
      var i :| FirstMatch(arena, l, s, sclass, i) && l[i] == r.value;
      assert FirstMatch(arena', l, s, sclass, i);
    }
    assert Resolves(arena', l, s, sclass, r);
    ResolvesUnique(arena', l, s, sclass, FindSymInList(arena', l, s, sclass), r);
  }

  /** A lookup of `s` with class filter `sclass` in catalog `c`. */
  function FindIn(st: SymTable, c: Catalog, s: string, sclass: int): (r: Option<Id>)
    ensures Resolves(st.arena, st.List(c), s, sclass, r)
  {
    FindSymInList(st.arena, st.List(c), s, sclass)
  }

  /** `findglob`: the first global named `s`, of any class. */
  function FindGlob(st: SymTable, s: string): (r: Option<Id>)
    ensures Resolves(st.arena, st.glob, s, 0, r)
  {
    FindIn(st, Glob, s, 0)
  }

  /** `findlocl`: the current function's parameter chain first (only while
      `Functionid` is set), then the local catalog; never the globals. */
  function FindLocl(st: SymTable, s: string): (r: Option<Id>)
    ensures Resolves(st.arena, st.ParamChain() + st.locl, s, 0, r)
  {
    var p := FindSymInList(st.arena, st.ParamChain(), s, 0);
    FindInConcat(st.arena, st.ParamChain(), st.locl, s, 0);
    if p.Some? then p else FindIn(st, Locl, s, 0)
  }

  /** `findsymbol`: parameters shadow locals, which shadow globals. */
  function FindSymbol(st: SymTable, s: string): (r: Option<Id>)
    ensures Resolves(st.arena, st.ParamChain() + st.locl + st.glob, s, 0, r)
    ensures FindLocl(st, s).Some? ==> r == FindLocl(st, s)
    ensures FindLocl(st, s).None? ==> r == FindGlob(st, s)
  {
    var p := FindSymInList(st.arena, st.ParamChain(), s, 0);
    FindInConcat(st.arena, st.ParamChain(), st.locl, s, 0);
    FindInConcat(st.arena, st.ParamChain() + st.locl, st.glob, s, 0);
    if p.Some? then p
    else
      var n := FindIn(st, Locl, s, 0);
      if n.Some? then n else FindIn(st, Glob, s, 0)
  }

  /** `findmember`: the first record named `s` on the member staging list. */
  function FindMember(st: SymTable, s: string): (r: Option<Id>)
    ensures Resolves(st.arena, st.memb, s, 0, r)
  {
    FindIn(st, Memb, s, 0)
  }

  /** `findstruct`: the first struct tag named `s`. */
  function FindStruct(st: SymTable, s: string): (r: Option<Id>)
    ensures Resolves(st.arena, st.structs, s, 0, r)
  {
    FindIn(st, Struct, s, 0)
  }

  /** `findunion`: the first union tag named `s`. */
  function FindUnion(st: SymTable, s: string): (r: Option<Id>)
    ensures Resolves(st.arena, st.unions, s, 0, r)
  {
    FindIn(st, Union, s, 0)
  }

  /** `findenumtype`: the first C_ENUMTYPE record named `s` on the enum list. */
  function FindEnumType(st: SymTable, s: string): (r: Option<Id>)
    ensures Resolves(st.arena, st.enums, s, C_ENUMTYPE, r)
    ensures r.Some? ==> st.arena[r.value].sclass == C_ENUMTYPE
  {
    FindIn(st, Enum, s, C_ENUMTYPE)
  }

  /** `findenumval`: the first C_ENUMVAL record named `s` on the enum list. */
  function FindEnumVal(st: SymTable, s: string): (r: Option<Id>)
    ensures Resolves(st.arena, st.enums, s, C_ENUMVAL, r)
    ensures r.Some? ==> st.arena[r.value].sclass == C_ENUMVAL
  {
    FindIn(st, Enum, s, C_ENUMVAL)
  }

  /** `findtypedef`: the first typedef named `s`. */
  function FindTypedef(st: SymTable, s: string): (r: Option<Id>)
    ensures Resolves(st.arena, st.typedefs, s, 0, r)
  {
    FindIn(st, Typedef, s, 0)
  }

  // ---------------------------------------------------------------------------
  // Lifecycle

  /** `clear_symtable`: every catalog becomes empty. `Functionid` is not
      touched, and the records themselves stay in the arena. */
  function ClearSymtable(st: SymTable): (r: SymTable)
    ensures forall c :: r.List(c) == []
    ensures r.arena == st.arena && r.nextId == st.nextId && r.functionid == st.functionid
    ensures st.Valid() ==> r.Valid()
  {
    st.(glob := [], locl := [], parm := [], memb := [], structs := [], unions := [],
        enums := [], typedefs := [])
  }

  /** `freeloclsyms`: the local and parameter catalogs become empty and there
      is no current function; the other six catalogs stay as they were. */
  function FreeLoclSyms(st: SymTable): (r: SymTable)
    ensures r.locl == [] && r.parm == [] && r.functionid == None
    ensures forall c | c != Locl && c != Parm :: r.List(c) == st.List(c)
    ensures r.arena == st.arena && r.nextId == st.nextId
    ensures st.Valid() ==> r.Valid()
  {
    st.(locl := [], parm := [], functionid := None)
  }

  predicate IsStatic(arena: map<Id, Sym>, id: Id)
  {
    id in arena && arena[id].sclass == C_STATIC
  }

  /** The records of `l` that are not C_STATIC, in their original order. */
  function KeepNonStatic(arena: map<Id, Sym>, l: seq<Id>): (r: seq<Id>)
    ensures |r| <= |l|
    decreases |l|
  {
    if |l| == 0 then []
    else (if IsStatic(arena, l[0]) then [] else [l[0]]) + KeepNonStatic(arena, l[1..])
  }

  /** The filter keeps exactly the records of `l` that are not C_STATIC. */
  lemma {:induction false} KeepNonStaticMembers(arena: map<Id, Sym>, l: seq<Id>)
    ensures forall x :: x in KeepNonStatic(arena, l) <==> x in l && !IsStatic(arena, x)
    decreases |l|
  {
    if |l| > 0 {
      KeepNonStaticMembers(arena, l[1..]);
      assert forall x :: x in l <==> x == l[0] || x in l[1..];
    }
  }

  /** The filter keeps the surviving records in their original order. */
  lemma {:induction false} KeepNonStaticInOrder(arena: map<Id, Sym>, l: seq<Id>)
    ensures Subsequence(KeepNonStatic(arena, l), l)
    decreases |l|
  {
    if |l| > 0 {
      var k := KeepNonStatic(arena, l[1..]);
      KeepNonStaticInOrder(arena, l[1..]);
      if IsStatic(arena, l[0]) {
        assert KeepNonStatic(arena, l) == k;
      } else {
        assert KeepNonStatic(arena, l) == [l[0]] + k;
        assert ([l[0]] + k)[0] == l[0] && ([l[0]] + k)[1..] == k;
      }
    }
  }

  /** `freestaticsyms`, as its comments describe it: the global catalog loses
      exactly its C_STATIC records and keeps the rest in order; the other
      catalogs and `Functionid` stay as they were. */
  function FreeStaticSyms(st: SymTable): (r: SymTable)
    ensures forall x :: x in r.glob <==> x in st.glob && !IsStatic(st.arena, x)
    ensures Subsequence(r.glob, st.glob)
    ensures forall c | c != Glob :: r.List(c) == st.List(c)
    ensures r.arena == st.arena && r.nextId == st.nextId && r.functionid == st.functionid
    ensures st.Valid() ==> r.Valid()
  {
    var r := st.WithList(Glob, KeepNonStatic(st.arena, st.glob));
    KeepNonStaticMembers(st.arena, st.glob);
    KeepNonStaticInOrder(st.arena, st.glob);
    KeepNonStaticKeepsValid(st, r);
    r
  }

  lemma KeepNonStaticKeepsValid(st: SymTable, r: SymTable)
    requires r == st.WithList(Glob, KeepNonStatic(st.arena, st.glob))
    ensures st.Valid() ==> r.Valid()
  {
    if !st.Valid() { return; }
    assert Distinct(st.List(Glob));
    KeepNonStaticDistinct(st.arena, st.glob);
    KeepNonStaticMembers(st.arena, st.glob);
    assert forall c1: Catalog, i | 0 <= i < |r.List(c1)| :: r.List(c1)[i] in st.List(c1);
  }

  lemma {:induction false} KeepNonStaticDistinct(arena: map<Id, Sym>, l: seq<Id>)
    requires Distinct(l)
    ensures Distinct(KeepNonStatic(arena, l))
    decreases |l|
  {
    if |l| > 0 {
      var tl := l[1..];
      assert forall i, j | 0 <= i < j < |tl| :: tl[i] == l[i + 1] && tl[j] == l[j + 1];
      KeepNonStaticDistinct(arena, tl);
      KeepNonStaticMembers(arena, tl);
      assert l[0] !in tl;
      assert l[0] !in KeepNonStatic(arena, tl);
    }
  }

  // ---------------------------------------------------------------------------
  // freestaticsyms as written

  /** The global catalog as the loop at sym.c:447-470 leaves it once it has
      visited the first `i` nodes. `prev` is never assigned inside the loop,
      so every static node at position 1 or later is "unlinked" by writing
      `Globhead->next`: the head stays, and everything between it and the
      static node disappears. A static head is a no-op. */
  function AsWrittenView(arena: map<Id, Sym>, l: seq<Id>, i: nat): (v: seq<Id>)
    requires i <= |l|
    ensures |v| <= |l|
    ensures |l| > 0 ==> |v| > 0 && v[0] == l[0]
    decreases i
  {
    if i <= 1 then l
    else if IsStatic(arena, l[i - 1]) then [l[0]] + l[i..]
    else AsWrittenView(arena, l, i - 1)
  }

  /** What the literal `freestaticsyms` makes of the global catalog: the head
      always survives, static or not, and what follows it is the part of the
      catalog after the last static node at position 1 or later. */
  function PruneAsWritten(arena: map<Id, Sym>, l: seq<Id>): (r: seq<Id>)
    ensures |l| > 0 ==> |r| > 0 && r[0] == l[0]
    ensures (forall i | 1 <= i < |l| :: !IsStatic(arena, l[i])) ==> r == l
  {
    AsWrittenViewShape(arena, l, |l|);
    AsWrittenView(arena, l, |l|)
  }

  lemma {:induction false} AsWrittenViewShape(arena: map<Id, Sym>, l: seq<Id>, i: nat)
    requires i <= |l|
    ensures |l| > 0 ==> |AsWrittenView(arena, l, i)| > 0 && AsWrittenView(arena, l, i)[0] == l[0]
    ensures (forall j | 1 <= j < i :: !IsStatic(arena, l[j])) ==> AsWrittenView(arena, l, i) == l
  {
    if i > 1 && !IsStatic(arena, l[i - 1]) {
      AsWrittenViewShape(arena, l, i - 1);
    }
  }
}
