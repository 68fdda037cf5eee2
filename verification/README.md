# Symbol table of a small C compiler, in Dafny

This project models the symbol table of a compiler for a subset of C:
`sym.c`, with the record layout and constants of `defs.h` and the global
state of `data.h`.

The compiler keeps eight singly-linked catalogs of `struct symtable`
records, each with a head and a tail pointer: globals, locals, parameters,
struct/union members, struct tags, union tags, enum entries and typedefs.
It also keeps the pointer `Functionid` to the function being compiled. The
model covers the following operations:

- `appendsym` appends a record to a catalog, and is fatal when a pointer
  is NULL.
- `newsym` builds a record. The size is set only for integer and pointer
  types.
- The eight `add*` constructors build a record and append it. For a
  struct or union value, `addglob`, `addlocl` and `addmemb` copy the size
  from the type record. `addparm` and `addtypedef` copy nothing.
- `findsyminlist` and the nine finders do first-match lookup, optionally
  filtered by storage class. `findlocl` and `findsymbol` search the
  current function's member chain first, then the locals, then (for
  `findsymbol`) the globals.
- `clear_symtable`, `freeloclsyms` and `freestaticsyms` are the lifecycle
  resets.

The model is built like this:

- Records live in an arena, `map<Id, Sym>`, and a pointer is a handle
  into it.
- Each catalog is the sequence of handles its `next` chain visits. Every
  operation is a pure function on the table.
- Module `Chains` follows the pointer code itself. `Chain` holds the
  head, the tail and the `next` fields. `Links(l, c)` says that walking
  the chain visits exactly `l`.
- `appendsym` and both versions of the `freestaticsyms` loop (the intended
  one and the one as written) are proved to leave a chain that spells the
  sequence-level result.
- `Types.TypeOracle` stands in for `inttype`, `ptrtype` and `typesize`,
  which are defined in `types.c`. `types.c` is not part of this model.

Modules:

| file | module | contents |
|---|---|---|
| wrappers.dfy | Wrappers | `Option` (a possibly-NULL pointer) and `Result` (completion or `fatal`) |
| defs.dfy | Defs | the `P_*`, `S_*` and `C_*` constants, the packed type encoding, and the `Sym` record with its `st_posn` aliases |
| types.dfy | Types | the oracle for the `types.c` helpers |
| data.dfy | Data | the catalogs, `Functionid`, and the table invariant `Valid` |
| sym.dfy | Symbols | the operations of `sym.c` |
| chains.dfy | Chains | the head/tail/`next` pointer code of `appendsym` and `freestaticsyms` |
| props.dfy | SymbolProps | how the operations combine: lookups after a declaration, shadowing, the resets, and static pruning |

## Model

| member | source | states |
|---|---|---|
| Defs.BaseOf | defs.h:85-91 | the base kind of a packed type is a multiple of 16 and lies within 16 below the type |
| Defs.Indirection | defs.h:85-87 | the indirection level is the low four bits, 0 to 15, and base plus level gives back the type |
| Defs.TypeEncodingRoundTrip | defs.h:85-91 | packing a base kind with an indirection level below 16 and unpacking gives back both parts |
| Defs.BaseUnique | defs.h:85-91 | a packed type has only one base kind |
| Defs.BaseKindsDistinct | defs.h:88-91 | the seven primitive kinds are distinct multiples of 16 |
| Defs.StructuralKindsDistinct | defs.h:94-96 | variable, function and array are 0, 1 and 2 |
| Defs.StorageClassesDistinctNonZero | defs.h:99-111 | the eleven storage classes are distinct and none is 0, so class 0 can mean "any class" in a lookup |
| Defs.PosnAliasesShareOneSlot | defs.h:122-124 | `st_endlabel`, `st_hasaddr` and `st_posn` name one slot: writing through any alias is read back through every alias, and nothing else changes |
| Data.SymTable.WithList | data.h:79-86 | replacing one catalog leaves the other seven, the arena and `Functionid` as they were |
| Data.SymTable.ParamChain | sym.c:294-296 | the chain searched first by `findlocl` and `findsymbol`: exactly the `member` chain of the `Functionid` record while it is set, empty while `Functionid` is NULL, and made of built records whenever every member chain is |
| Symbols.AppendSym | sym.c:22-39 | for a node on no catalog yet, the call is fatal exactly when the head/tail pair or the node is NULL, with the source's message; otherwise the node becomes the new tail, it becomes the head only of an empty catalog, and the other catalogs, the arena and `Functionid` stay as they were |
| Chains.AppendLinked | sym.c:31-38 | the old tail, if any, points at the node; the node becomes the tail (and the head of an empty catalog) and points at NULL; no other `next` field changes |
| Chains.AppendLinkedRefines | sym.c:30-38 | the pointer assignments of `appendsym` leave a chain that spells the old catalog followed by the node, with the node's `next` NULL and the head kept unless the catalog was empty |
| Symbols.NewSym | sym.c:61-92 | every field comes from its argument, the member chain is empty, and the size is set exactly for pointer and integer types, to the element count times the type size |
| Symbols.SizedSym | sym.c:110-114 | the record is `newsym`'s except for its size, which for a struct or union value is the size of the type record and otherwise is `newsym`'s |
| Symbols.Install | sym.c:61-92 | the new record gets an unused handle, is appended to its catalog, and leaves the rest of the table alone; the table stays valid |
| Symbols.InstallKeepsValid | sym.c:22-39 | appending a record under a fresh handle preserves the table invariant |
| Symbols.InstallListsFresh | sym.c:22-39 | after the append, the catalogs still refer to built records only, each record still appears once, and no record is in two catalogs |
| Symbols.AddGlob | sym.c:107-117 | a global with the given fields is appended to the global catalog; a struct or union value copies the size of its type record |
| Symbols.AddLocl | sym.c:130-140 | a C_LOCAL record with position 0 is appended to the locals; a struct or union value copies the size of its type record |
| Symbols.AddParm | sym.c:152-158 | a C_PARAM record with one element and position 0 is appended to the parameters, and no size is copied |
| Symbols.AddMemb | sym.c:171-182 | a C_MEMBER record is appended to the member list; a struct or union value copies the size of its type record |
| Symbols.AddStruct | sym.c:191-196 | a P_STRUCT / C_STRUCT record with no elements is appended to the struct catalog |
| Symbols.AddUnion | sym.c:205-210 | a P_UNION / C_UNION record is appended to the union catalog |
| Symbols.AddEnum | sym.c:223-228 | an integer-typed enum entry of the given class is appended to the enum catalog, with its value in the position slot |
| Symbols.AddTypedef | sym.c:239-244 | a C_TYPEDEF record is appended to the typedef catalog |
| Symbols.FindSymInList | sym.c:258-266 | the result is the first record in list order that has a name equal to the string and, unless the class is 0, the given class; it is NULL when no record qualifies |
| Symbols.ResolvesUnique | sym.c:258-266 | the first-match rule determines the answer, so any search satisfying it returns the same record |
| Symbols.FindInConcat | sym.c:258-266 | searching two lists back to back finds the first list's answer if it has one, otherwise the second's |
| Symbols.FindIgnoresOtherRecords | sym.c:258-266 | a lookup depends only on the records in the list searched |
| Symbols.FindIn | sym.c:258-266 | a search of one catalog follows the first-match rule |
| Symbols.FindGlob | sym.c:276-279 | first match by name in the globals |
| Symbols.FindLocl | sym.c:289-301 | first match in the current function's member chain, then in the locals |
| Symbols.FindSymbol | sym.c:311-327 | first match in the member chain, then the locals, then the globals; it agrees with `findlocl` when that succeeds and with `findglob` otherwise |
| Symbols.FindMember | sym.c:337-340 | first match by name in the member list |
| Symbols.FindStruct | sym.c:350-353 | first match by name in the struct catalog |
| Symbols.FindUnion | sym.c:363-366 | first match by name in the union catalog |
| Symbols.FindEnumType | sym.c:376-379 | first C_ENUMTYPE match in the enum catalog; the result always has that class |
| Symbols.FindEnumVal | sym.c:389-392 | first C_ENUMVAL match in the enum catalog; the result always has that class |
| Symbols.FindTypedef | sym.c:402-405 | first match by name in the typedef catalog |
| Symbols.ClearSymtable | sym.c:412-422 | every catalog becomes empty, while the arena and `Functionid` are untouched; the table stays valid |
| Symbols.FreeLoclSyms | sym.c:429-434 | the locals and parameters become empty and `Functionid` becomes NULL, while the other catalogs are unchanged |
| Symbols.KeepNonStatic | sym.c:436-449 | removing the statics never lengthens the catalog (which records it keeps is stated by `KeepNonStaticMembers`) |
| Symbols.KeepNonStaticMembers | sym.c:436-449 | the filtered global list holds exactly the globals that are not C_STATIC |
| Symbols.KeepNonStaticDistinct | sym.c:436-449 | filtering a duplicate-free catalog leaves it duplicate-free |
| Symbols.KeepNonStaticInOrder | sym.c:436-461 | the filtered global list is a subsequence of the catalog: the survivors keep their relative order |
| Symbols.FreeStaticSyms | sym.c:436-461 | the globals lose exactly their C_STATIC records and the survivors keep their order, while the other catalogs and `Functionid` stay; the table stays valid |
| Symbols.KeepNonStaticKeepsValid | sym.c:436-449 | removing the statics from the globals preserves the table invariant |
| Symbols.PruneAsWritten | sym.c:441-474 | the loop as written always keeps the head; with no static record after the head it keeps the whole catalog |
| Symbols.AsWrittenView | sym.c:447-470 | the global catalog after the loop as written has visited the first `i` nodes: never longer than the catalog, and still starting with its head |
| Symbols.AsWrittenViewShape | sym.c:447-470 | at every point of the loop as written, the catalog still starts with its head and is untouched until the first static record after the head |
| Chains.WalkAt | sym.c:447 | following `next` from the head visits a sequence exactly when that sequence is duplicate-free, each node points to the next, and the last node points to NULL |
| Chains.LinksAt | sym.c:447 | the walk form and the position-by-position form of a linked catalog agree |
| Chains.Splice | sym.c:455-456 | pointing a node's `next` past a run of nodes unlinks exactly that run |
| Chains.UnlinkHead | sym.c:457-458 | moving the head to its successor unlinks the first node |
| Chains.SpliceVisit | sym.c:447-462 | at each visit, `g->next` is the next node to visit, and `g` is the tail exactly when it is the last node |
| Chains.SpliceKeep | sym.c:472-473 | a node that stays joins the survivors and the chain is untouched |
| Chains.SpliceDropAfter | sym.c:455-456 | `prev->next = g->next` unlinks a static node that follows a survivor, and moves the tail back to `prev` if the node was the tail |
| Chains.SpliceDropHead | sym.c:452-458 | with no survivor yet, moving the head to `g->next` unlinks the static node |
| Chains.SurvivorsAfterFilters | sym.c:447-470 | filtering visit by visit gives the survivors so far, followed by the filtered rest |
| Chains.SpliceStatics | sym.c:441-474 | the repaired loop leaves a chain that spells exactly the non-static globals in their original order, with the head and tail set correctly |
| Chains.AsWrittenStep | sym.c:447-470 | one visit of the loop as written either leaves the catalog as it was or cuts it back to the head followed by the rest of the list |
| Chains.AsWrittenFacts | sym.c:447-462 | at each visit of the loop as written, the head is the first node, `g->next` is the next node in the original list, and `g` is the tail exactly when it is the last node |
| Chains.AsWrittenCut | sym.c:457-467 | writing `Globhead->next = g->next` for a static node after the head leaves a chain of the head followed by the rest of the list |
| Chains.AsWrittenVisit | sym.c:447-470 | one visit of the loop as written turns a chain that spells the catalog so far into one that spells the next stage |
| Chains.SpliceStaticsAsWritten | sym.c:441-474 | the loop as written, with `prev` and both of its branches, keeps `prev` NULL at every visit (so the `prev != NULL` branches are unreachable) and leaves a chain that spells `PruneAsWritten` of the catalog |
| SymbolProps.EmptyTableValid | data.h:79-86 | the table before any declaration is valid and no lookup finds anything in it |
| SymbolProps.FreshHandleUnused | sym.c:61-68 | a newly allocated record is in no catalog yet |
| SymbolProps.FindAfterAdd | sym.c:107-244 | after any `add*`, a lookup in that catalog returns the earlier answer if there was one; otherwise it returns the new record exactly when that record answers the lookup. Lookups in the other catalogs are unchanged |
| SymbolProps.ParamChainAfterAdd | sym.c:289-299 | a declaration does not change the current function's member chain as the model stores it (a snapshot of handles); the new record is never `Functionid` and no existing record is rewritten |
| SymbolProps.RedeclaredGlobalKeepsFirst | sym.c:107-117 | redeclaring a global leaves `findglob` on the first declaration; a new name is found as the new record |
| SymbolProps.EnumTypeAndValueCoexist | sym.c:223-228 | an enum type and an enum value with the same name are distinct records, each found by its own finder, and the value is stored in the position slot |
| SymbolProps.LocalShadowsGlobal | sym.c:311-327 | when a parameter or local has the name, `findsymbol` returns a parameter or local, never a global |
| SymbolProps.ParamShadowsLocal | sym.c:315-321 | when a parameter of the current function has the name, `findsymbol` returns a parameter |
| SymbolProps.UnshadowedIsGlobal | sym.c:311-327 | with no parameter or local of that name, `findsymbol` equals `findglob` |
| SymbolProps.FreeLoclSymsHidesLocals | sym.c:429-434 | afterwards `findlocl` finds nothing, `findsymbol` equals `findglob`, and the other finders are unchanged; a second call changes nothing |
| SymbolProps.ClearLeavesOnlyParamChain | sym.c:412-422 | afterwards every catalog lookup fails, but `findlocl` and `findsymbol` still search the old function's member chain; a second call changes nothing |
| SymbolProps.KeepNonStaticConcat | sym.c:436-449 | removing statics piece by piece is the same as removing them from the whole catalog |
| SymbolProps.KeepNonStaticNoStatics | sym.c:436-449 | a catalog without static records is left whole |
| SymbolProps.KeepNonStaticIdempotent | sym.c:436-449 | removing statics twice is the same as removing them once |
| SymbolProps.FreeStaticSymsIdempotent | sym.c:436-449 | a second `freestaticsyms` changes nothing |
| SymbolProps.SubsequenceMembers | sym.c:436-461 | every record of a subsequence is a record of the whole catalog |
| SymbolProps.NonStaticInOrderIsFilter | sym.c:436-461 | on a duplicate-free catalog, a list holding exactly the non-static records in their original order is the filter itself |
| SymbolProps.FreeStaticSymsDetermined | sym.c:436-461 | any table meeting the membership and order clauses of `freestaticsyms` from a valid table has the same globals as `FreeStaticSyms` |
| SymbolProps.FindAfterKeepNonStatic | sym.c:258-266 | a lookup whose answer is not static gives the same answer after the statics are removed |
| SymbolProps.FreeStaticSymsKeepsLookups | sym.c:436-449 | afterwards no global lookup returns a static record, and a lookup that returned a non-static record still returns it |
| SymbolProps.AdjacentStaticsExample | sym.c:441-474 | `[a, b(static), c(static), d]` becomes `[a, d]`, both as intended and as written |
| SymbolProps.SeparatedStaticsLoseAGlobal | sym.c:455-458 | `[a, b(static), c, d(static)]` should become `[a, c]`, but the loop as written leaves `[a]` |
| SymbolProps.StaticHeadSurvives | sym.c:455-458 | `[s(static), a]` should become `[a]`, but the loop as written keeps `[s, a]` |
| SymbolProps.AsWrittenAgreesWithoutStatics | sym.c:441-474 | on a catalog without static records, both versions keep the catalog whole |

## Left out

- The dump functions (`dumpsym`, `dumptable`, `dumpsymtables`, sym.c:483-636) are left out. They only print diagnostics.
- Calls to `fatal` are modelled as a `Result.Fatal` value carrying the message. The exit and the output stream are left out.
- A failing `malloc` in `newsym` (sym.c:66-68) is left out. The arena always has a free handle.
- `strdup` of the name is modelled as sharing the string, since strings are values here.
- `inttype`, `ptrtype` and `typesize` are defined in `types.c`, which is not part of this model. They are parameters (`Types.TypeOracle`).
- The `initlist` field is left out. `sym.c` only sets it to NULL, and nothing here reads it.
- Member chains are modelled as snapshots. A record's `member` chain is a sequence of handles. In C, a function's member chain is the parameter catalog's own `next` links, so later appends to the parameter catalog show through. The model does not capture that sharing.
- SymbolProps.ParamChainAfterAdd: holds in C only when the parameter catalog no longer shares its links with `Functionid->member`, that is once the caller has reset `Parmhead`/`Parmtail` after attaching the chain. While `Functionid->member` still heads the parameter catalog, `addparm` links the new record onto that chain through `(*tail)->next = node` (sym.c:33), and `findlocl` then reaches it. The snapshot model of member chains cannot show that growth.
- Symbols.AppendSym: a node that is already on a catalog is excluded by its precondition. In C, relinking such a node would cut its catalog short at the node, and the tail pointer of another catalog would no longer be on that catalog's walk. The list model cannot represent that. Every caller in `sym.c` passes a record that `newsym` has just built.
- The pointers to the head/tail pairs that `appendsym` receives are modelled as an `Option<Catalog>`. NULL is `None`.
- A record's size left unset by `newsym` (garbage memory) is `None`.
- Symbols.NewSym: the size `nelems * typesize` is an unbounded integer here. The 32-bit `int` product in C can overflow, and that overflow is not modelled.
- Symbols.ClearSymtable: this follows the code, which resets the eight catalogs but not `Functionid`. A description of it as a full reset would also clear `Functionid`. `SymbolProps.ClearLeavesOnlyParamChain` shows the consequence.
- Chains.SpliceStatics and Chains.SpliceStaticsAsWritten take the catalog's sequence as a ghost argument. Their chains cover only the global catalog's `next` fields.

## Findings

| source | as written | input that shows it | evidently intended | confidence | as-written member | corrected member |
|---|---|---|---|---|---|---|
| sym.c:455-473 | `prev` is assigned only after the loop, so it is NULL at every visit. Every static node is therefore "unlinked" by `Globhead->next = g->next`, which drops every survivor between the head and that node, and never removes a static head. | globals `[a, b(static), c, d(static)]` leave `[a]`, not `[a, c]`; globals `[s(static), a]` leave `[s, a]` | remove exactly the C_STATIC globals and keep the rest in order, moving `Globhead` itself when the head is static and advancing `prev` past every node that stays | not executed | Chains.SpliceStaticsAsWritten, Symbols.PruneAsWritten, SymbolProps.SeparatedStaticsLoseAGlobal, SymbolProps.StaticHeadSurvives | Chains.SpliceStatics, Symbols.FreeStaticSyms, SymbolProps.FreeStaticSymsKeepsLookups |
