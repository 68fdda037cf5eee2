/** What the operations of `Symbols` promise together: what a lookup sees
    after a declaration, how the scopes shadow each other, what the resets
    leave behind, and what `freestaticsyms` does to the global catalog, both
    as intended and as written. */
module SymbolProps {
  import opened Wrappers
  import opened Defs
  import opened Types
  import opened Data
  import opened Symbols

  // ---------------------------------------------------------------------------
  // Declaring, then looking up

  /** The table before the first declaration is valid, and no name resolves
      in it. */
  lemma EmptyTableValid(s: string)
    ensures EmptyTable.Valid()
    ensures FindSymbol(EmptyTable, s) == None && FindLocl(EmptyTable, s) == None
    ensures forall c: Catalog, sclass: int :: FindIn(EmptyTable, c, s, sclass) == None
  {
  }

  /** A new record's handle is in no catalog and in no record's member chain
      yet, because every handle in use is below `nextId`. */
  lemma FreshHandleUnused(st: SymTable, c: Catalog)
    requires st.Valid()
    ensures st.nextId !in st.List(c)
    ensures st.nextId !in st.arena
  {
  }

  /** After any `add*` into catalog `c`, a lookup in `c` finds what it found
      before; only when nothing matched before does it find the new record,
      and then exactly when the new record answers the lookup. Lookups in
      the other catalogs are unchanged. So the first declaration of a name
      keeps winning: later ones are appended behind it. */
  lemma {:induction false} FindAfterAdd(st: SymTable, r: Added, c: Catalog, s: string, sclass: int)
    requires st.Valid()
    requires AddedTo(st, r, c)
    ensures FindIn(r.table, c, s, sclass)
         == (if FindIn(st, c, s, sclass).Some? then FindIn(st, c, s, sclass)
             else if Matches(r.table.arena, r.id, s, sclass) then Some(r.id)
             else None)
    ensures forall c' | c' != c :: FindIn(r.table, c', s, sclass) == FindIn(st, c', s, sclass)
  {
    var a' := r.table.arena;
    forall c': Catalog
      ensures FindSymInList(a', st.List(c'), s, sclass) == FindSymInList(st.arena, st.List(c'), s, sclass)
    {
      FreshHandleUnused(st, c');
      FindIgnoresOtherRecords(st.arena, st.List(c'), s, sclass, r.id, a'[r.id]);
    }
    FindInConcat(a', st.List(c), [r.id], s, sclass);
    assert [r.id][1..] == [];
  }

  /** The current function's chain is the same after a declaration: the new
      record is not `Functionid`, and no existing record changes. */
  lemma ParamChainAfterAdd(st: SymTable, r: Added, c: Catalog)
    requires st.Valid()
    requires AddedTo(st, r, c)
    ensures r.table.ParamChain() == st.ParamChain()
  {
    FreshHandleUnused(st, c);
  }

  /** `addglob` of a name already declared globally leaves `findglob` on the
      first declaration; otherwise `findglob` finds the new record exactly
      when it carries the name. */
  lemma RedeclaredGlobalKeepsFirst(st: SymTable, ts: TypeOracle, name: Option<string>, ptype: int,
                                   ctype: Option<Id>, stype: int, sclass: int, nelems: int, posn: int, s: string)
    requires st.Valid()
    requires IsComposite(ptype) ==> ctype.Some? && ctype.value in st.arena
    ensures var r := AddGlob(st, ts, name, ptype, ctype, stype, sclass, nelems, posn);
      FindGlob(r.table, s) == (if FindGlob(st, s).Some? then FindGlob(st, s)
                               else if name == Some(s) then Some(r.id) else None)
  {
    var r := AddGlob(st, ts, name, ptype, ctype, stype, sclass, nelems, posn);
    FindAfterAdd(st, r, Glob, s, 0);
  }

  /** An enum type and an enum value may share a name: `addenum` puts both on
      the one enum catalog, and the class filter of `findenumtype` and
      `findenumval` tells them apart. The value lives in the position slot. */
  lemma EnumTypeAndValueCoexist(st: SymTable, ts: TypeOracle)
    requires st.Valid()
    requires FindEnumType(st, "RED") == None && FindEnumVal(st, "RED") == None
    ensures var t := AddEnum(st, ts, Some("RED"), C_ENUMTYPE, 0);
            var v := AddEnum(t.table, ts, Some("RED"), C_ENUMVAL, 5);
            && t.id != v.id
            && FindEnumType(v.table, "RED") == Some(t.id)
            && FindEnumVal(v.table, "RED") == Some(v.id)
            && v.table.arena[v.id].posn == 5
            && v.table.arena[FindEnumType(v.table, "RED").value].sclass == C_ENUMTYPE
  {
    var t := AddEnum(st, ts, Some("RED"), C_ENUMTYPE, 0);
    var v := AddEnum(t.table, ts, Some("RED"), C_ENUMVAL, 5);
    FindAfterAdd(st, t, Enum, "RED", C_ENUMTYPE);
    FindAfterAdd(st, t, Enum, "RED", C_ENUMVAL);
    FindAfterAdd(t.table, v, Enum, "RED", C_ENUMTYPE);
    FindAfterAdd(t.table, v, Enum, "RED", C_ENUMVAL);
  }

  // ---------------------------------------------------------------------------
  // Scopes

  /** Parameters and locals shadow globals: when any parameter of the current
      function or any local carries the name, `findsymbol` returns one of
      those, never a global. */
  lemma LocalShadowsGlobal(st: SymTable, s: string, j: int)
    requires 0 <= j < |st.ParamChain() + st.locl|
    requires Matches(st.arena, (st.ParamChain() + st.locl)[j], s, 0)
    ensures FindSymbol(st, s).Some?
    ensures FindSymbol(st, s).value in st.ParamChain() + st.locl
  {
    var inner := st.ParamChain() + st.locl;
    var l := inner + st.glob;
    var r := FindSymbol(st, s);
    assert l[j] == inner[j];
    var i :| FirstMatch(st.arena, l, s, 0, i) && l[i] == r.value;
    assert i <= j;
    assert l[i] == inner[i];
  }

  /** Parameters shadow locals: when a parameter of the current function
      carries the name, `findsymbol` returns a parameter. */
  lemma ParamShadowsLocal(st: SymTable, s: string, j: int)
    requires 0 <= j < |st.ParamChain()|
    requires Matches(st.arena, st.ParamChain()[j], s, 0)
    ensures FindSymbol(st, s).Some?
    ensures FindSymbol(st, s).value in st.ParamChain()
  {
    var p := st.ParamChain();
    var l := p + st.locl + st.glob;
    var r := FindSymbol(st, s);
    assert l[j] == p[j];
    var i :| FirstMatch(st.arena, l, s, 0, i) && l[i] == r.value;
    assert i <= j;
    assert l[i] == p[i];
  }

  /** With no parameter or local of that name, `findsymbol` is `findglob`. */
  lemma UnshadowedIsGlobal(st: SymTable, s: string)
    requires forall x | x in st.ParamChain() + st.locl :: !Matches(st.arena, x, s, 0)
    ensures FindSymbol(st, s) == FindGlob(st, s)
  {
    var inner := st.ParamChain() + st.locl;
    assert forall i | 0 <= i < |inner| :: inner[i] in inner;
  }

  // ---------------------------------------------------------------------------
  // Resets

  /** After `freeloclsyms` no local or parameter is visible: `findlocl` finds
      nothing, `findsymbol` is `findglob`, and the other lookups are as they
      were. Doing it twice is doing it once. */
  lemma FreeLoclSymsHidesLocals(st: SymTable, s: string)
    ensures FindLocl(FreeLoclSyms(st), s) == None
    ensures FindSymbol(FreeLoclSyms(st), s) == FindGlob(st, s)
    ensures FindMember(FreeLoclSyms(st), s) == FindMember(st, s)
    ensures FindStruct(FreeLoclSyms(st), s) == FindStruct(st, s)
    ensures FindUnion(FreeLoclSyms(st), s) == FindUnion(st, s)
    ensures FindEnumType(FreeLoclSyms(st), s) == FindEnumType(st, s)
    ensures FindEnumVal(FreeLoclSyms(st), s) == FindEnumVal(st, s)
    ensures FindTypedef(FreeLoclSyms(st), s) == FindTypedef(st, s)
    ensures FreeLoclSyms(FreeLoclSyms(st)) == FreeLoclSyms(st)
  {
    var f := FreeLoclSyms(st);
    assert f.ParamChain() == [];
    assert FindLocl(f, s) == None by {
      assert f.ParamChain() + f.locl == [];
    }
    assert f.arena == st.arena && f.glob == st.glob;
    assert FindGlob(f, s) == FindGlob(st, s);
  }

  /** After `clear_symtable` no catalog answers a lookup, but `Functionid` is
      left as it was, so `findlocl` and `findsymbol` still search the old
      function's parameter chain. Doing it twice is doing it once. */
  lemma ClearLeavesOnlyParamChain(st: SymTable, s: string)
    ensures FindGlob(ClearSymtable(st), s) == None
    ensures FindMember(ClearSymtable(st), s) == None
    ensures FindStruct(ClearSymtable(st), s) == None
    ensures FindUnion(ClearSymtable(st), s) == None
    ensures FindEnumType(ClearSymtable(st), s) == None
    ensures FindEnumVal(ClearSymtable(st), s) == None
    ensures FindTypedef(ClearSymtable(st), s) == None
    ensures FindLocl(ClearSymtable(st), s) == FindSymInList(st.arena, st.ParamChain(), s, 0)
    ensures FindSymbol(ClearSymtable(st), s) == FindSymInList(st.arena, st.ParamChain(), s, 0)
    ensures ClearSymtable(ClearSymtable(st)) == ClearSymtable(st)
  {
    var t := ClearSymtable(st);
    assert t.ParamChain() == st.ParamChain();
    assert t.ParamChain() + t.locl == st.ParamChain();
    assert t.ParamChain() + t.locl + t.glob == st.ParamChain();
  }

  // ---------------------------------------------------------------------------
  // freestaticsyms as intended

  /** Filtering a catalog piecewise is filtering it whole. */
  lemma {:induction false} KeepNonStaticConcat(arena: map<Id, Sym>, a: seq<Id>, b: seq<Id>)
    ensures KeepNonStatic(arena, a + b) == KeepNonStatic(arena, a) + KeepNonStatic(arena, b)
    decreases |a|
  {
    if |a| > 0 {
      var pre := if IsStatic(arena, a[0]) then [] else [a[0]];
      assert (a + b)[0] == a[0] && (a + b)[1..] == a[1..] + b;
      KeepNonStaticConcat(arena, a[1..], b);
      calc {
        KeepNonStatic(arena, a + b);
        pre + KeepNonStatic(arena, a[1..] + b);
        pre + (KeepNonStatic(arena, a[1..]) + KeepNonStatic(arena, b));
        (pre + KeepNonStatic(arena, a[1..])) + KeepNonStatic(arena, b);
      }
    } else {
      assert a + b == b;
    }
  }

  /** A catalog without static records is kept whole. */
  lemma {:induction false} KeepNonStaticNoStatics(arena: map<Id, Sym>, l: seq<Id>)
    requires forall i | 0 <= i < |l| :: !IsStatic(arena, l[i])
    ensures KeepNonStatic(arena, l) == l
    decreases |l|
  {
    if |l| > 0 {
      assert forall i | 0 <= i < |l[1..]| :: l[1..][i] == l[i + 1];
      KeepNonStaticNoStatics(arena, l[1..]);
    }
  }

  /** Filtering twice is filtering once. */
  lemma KeepNonStaticIdempotent(arena: map<Id, Sym>, l: seq<Id>)
    ensures KeepNonStatic(arena, KeepNonStatic(arena, l)) == KeepNonStatic(arena, l)
  {
    var k := KeepNonStatic(arena, l);
    KeepNonStaticMembers(arena, l);
    assert forall i | 0 <= i < |k| :: k[i] in k;
    KeepNonStaticNoStatics(arena, k);
  }

  /** A second `freestaticsyms` changes nothing. */
  lemma FreeStaticSymsIdempotent(st: SymTable)
    ensures FreeStaticSyms(FreeStaticSyms(st)) == FreeStaticSyms(st)
  {
    KeepNonStaticIdempotent(st.arena, st.glob);
  }

  /** Filtering out static records does not change a lookup whose answer
      was not static: every record ahead of it still fails to match. */
  lemma {:induction false} FindAfterKeepNonStatic(arena: map<Id, Sym>, l: seq<Id>, s: string, sclass: int)
    requires FindSymInList(arena, l, s, sclass).Some?
    requires !IsStatic(arena, FindSymInList(arena, l, s, sclass).value)
    ensures FindSymInList(arena, KeepNonStatic(arena, l), s, sclass) == FindSymInList(arena, l, s, sclass)
    decreases |l|
  {
    var k := KeepNonStatic(arena, l);
    if Matches(arena, l[0], s, sclass) {
      assert k[0] == l[0];
    } else {
      FindAfterKeepNonStatic(arena, l[1..], s, sclass);
      var pre := if IsStatic(arena, l[0]) then [] else [l[0]];
      FindInConcat(arena, pre, KeepNonStatic(arena, l[1..]), s, sclass);
      if pre != [] {
        assert pre[1..] == [];
      }
    }
  }

  /** After `freestaticsyms`, a global lookup that resolved to a record that
      is not static resolves to the same record, and no global lookup finds
      a static record. */
  lemma FreeStaticSymsKeepsLookups(st: SymTable, s: string)
    ensures FindGlob(FreeStaticSyms(st), s).Some? ==> !IsStatic(st.arena, FindGlob(FreeStaticSyms(st), s).value)
    ensures FindGlob(st, s).Some? && !IsStatic(st.arena, FindGlob(st, s).value) ==>
      FindGlob(FreeStaticSyms(st), s) == FindGlob(st, s)
  {
    var t := FreeStaticSyms(st);
    var r' := FindGlob(t, s);
    KeepNonStaticMembers(st.arena, st.glob);
    if r'.Some? {
      var i :| FirstMatch(st.arena, t.glob, s, 0, i) && t.glob[i] == r'.value;
      assert t.glob[i] in t.glob;
    }
    if FindGlob(st, s).Some? && !IsStatic(st.arena, FindGlob(st, s).value) {
      FindAfterKeepNonStatic(st.arena, st.glob, s, 0);
    }
  }

  /** Every element of a subsequence is an element of the whole. */
  lemma {:induction false} SubsequenceMembers(a: seq<Id>, b: seq<Id>)
    requires Subsequence(a, b)
    ensures forall x | x in a :: x in b
    decreases |b|
  {
    if |b| > 0 {
      if Subsequence(a, b[1..]) {
        SubsequenceMembers(a, b[1..]);
      } else {
        SubsequenceMembers(a[1..], b[1..]);
        assert forall x | x in a :: x == a[0] || x in a[1..];
      }
    }
  }

  /** On a duplicate-free catalog, "exactly the non-static records, in their
      original order" has one answer: the filter. So the contract of
      `FreeStaticSyms` determines its global catalog. */
  lemma {:induction false} NonStaticInOrderIsFilter(arena: map<Id, Sym>, l: seq<Id>, a: seq<Id>)
    requires Distinct(l)
    requires Subsequence(a, l)
    requires forall x :: x in a <==> x in l && !IsStatic(arena, x)
    ensures a == KeepNonStatic(arena, l)
    decreases |l|
  {
    if |l| > 0 {
      var tl := l[1..];
      assert forall i, j | 0 <= i < j < |tl| :: tl[i] == l[i + 1] && tl[j] == l[j + 1];
      assert l[0] !in tl;
      assert forall x :: x in l <==> x == l[0] || x in tl;
      if IsStatic(arena, l[0]) {
        assert l[0] !in a;
        NonStaticInOrderIsFilter(arena, tl, a);
      } else {
        assert l[0] in a;
        if Subsequence(a, tl) {
          SubsequenceMembers(a, tl);
          assert false;
        }
        var at := a[1..];
        assert a[0] == l[0];
        SubsequenceMembers(at, tl);
        assert forall x :: x in a <==> x == a[0] || x in at;
        NonStaticInOrderIsFilter(arena, tl, at);
        assert a == [l[0]] + at;
      }
    }
  }

  /** Any table that keeps exactly the non-static globals in their order has
      the globals `FreeStaticSyms` leaves; reordering them breaks the contract. */
  lemma FreeStaticSymsDetermined(st: SymTable, r: SymTable)
    requires st.Valid()
    requires forall x :: x in r.glob <==> x in st.glob && !IsStatic(st.arena, x)
    requires Subsequence(r.glob, st.glob)
    ensures r.glob == FreeStaticSyms(st).glob
  {
    assert Distinct(st.List(Glob));
    NonStaticInOrderIsFilter(st.arena, st.glob, r.glob);
  }

  // ---------------------------------------------------------------------------
  // freestaticsyms: intended against written, on concrete catalogs

  /** A record of storage class `sclass` and no other distinguishing field. */
  function Rec(sclass: int): Sym
  {
    Sym(None, P_INT, None, S_VARIABLE, sclass, None, 1, 0, [])
  }

  /** Four globals 0..3, with the classes given. */
  function Arena4(c0: int, c1: int, c2: int, c3: int): map<Id, Sym>
  {
    map[0 := Rec(c0), 1 := Rec(c1), 2 := Rec(c2), 3 := Rec(c3)]
  }

  /** `[a, b(static), c(static), d]`: two adjacent statics in the middle.
      Both the intended filter and the loop as written leave `[a, d]`. */
  lemma AdjacentStaticsExample()
    ensures KeepNonStatic(Arena4(C_GLOBAL, C_STATIC, C_STATIC, C_GLOBAL), [0, 1, 2, 3]) == [0, 3]
    ensures PruneAsWritten(Arena4(C_GLOBAL, C_STATIC, C_STATIC, C_GLOBAL), [0, 1, 2, 3]) == [0, 3]
  {
    var arena := Arena4(C_GLOBAL, C_STATIC, C_STATIC, C_GLOBAL);
    var l: seq<Id> := [0, 1, 2, 3];
    assert !IsStatic(arena, 0) && IsStatic(arena, 1) && IsStatic(arena, 2) && !IsStatic(arena, 3);
    FilterSuffixes(arena, l);
    assert AsWrittenView(arena, l, 3) == [0] + l[3..];
  }

  /** `[a, b(static), c, d(static)]`: the intended filter keeps `[a, c]`, but
      the loop as written drops `c` as well, because the static `d` is
      unlinked by writing `Globhead->next`. */
  lemma SeparatedStaticsLoseAGlobal()
    ensures KeepNonStatic(Arena4(C_GLOBAL, C_STATIC, C_GLOBAL, C_STATIC), [0, 1, 2, 3]) == [0, 2]
    ensures PruneAsWritten(Arena4(C_GLOBAL, C_STATIC, C_GLOBAL, C_STATIC), [0, 1, 2, 3]) == [0]
  {
    var arena := Arena4(C_GLOBAL, C_STATIC, C_GLOBAL, C_STATIC);
    var l: seq<Id> := [0, 1, 2, 3];
    assert !IsStatic(arena, 0) && IsStatic(arena, 1) && !IsStatic(arena, 2) && IsStatic(arena, 3);
    FilterSuffixes(arena, l);
    assert l[4..] == [];
  }

  /** `[s(static), a]`: the intended filter drops the static head, the loop
      as written keeps it (its head case rewrites `Globhead->next` with the
      value it already has). */
  lemma StaticHeadSurvives()
    ensures KeepNonStatic(Arena4(C_STATIC, C_GLOBAL, C_GLOBAL, C_GLOBAL), [0, 1]) == [1]
    ensures PruneAsWritten(Arena4(C_STATIC, C_GLOBAL, C_GLOBAL, C_GLOBAL), [0, 1]) == [0, 1]
  {
    var arena := Arena4(C_STATIC, C_GLOBAL, C_GLOBAL, C_GLOBAL);
    var l: seq<Id> := [0, 1];
    assert IsStatic(arena, 0) && !IsStatic(arena, 1);
    assert l[1..] == [1] && [1][1..] == [];
    assert AsWrittenView(arena, l, 2) == AsWrittenView(arena, l, 1);
  }

  /** The filter of a four-record catalog, one record at a time. */
  lemma FilterSuffixes(arena: map<Id, Sym>, l: seq<Id>)
    requires |l| == 4
    ensures KeepNonStatic(arena, l)
         == (if IsStatic(arena, l[0]) then [] else [l[0]]) + (if IsStatic(arena, l[1]) then [] else [l[1]])
          + (if IsStatic(arena, l[2]) then [] else [l[2]]) + (if IsStatic(arena, l[3]) then [] else [l[3]])
  {
    var s3: seq<Id> := [l[3]];
    var s2: seq<Id> := [l[2]] + s3;
    var s1: seq<Id> := [l[1]] + s2;
    assert l == [l[0]] + s1;
    KeepNonStaticCons(arena, l[3], []);
    KeepNonStaticCons(arena, l[2], s3);
    KeepNonStaticCons(arena, l[1], s2);
    KeepNonStaticCons(arena, l[0], s1);
  }

  lemma KeepNonStaticCons(arena: map<Id, Sym>, x: Id, l: seq<Id>)
    ensures KeepNonStatic(arena, [x] + l) == (if IsStatic(arena, x) then [] else [x]) + KeepNonStatic(arena, l)
  {
    assert ([x] + l)[0] == x && ([x] + l)[1..] == l;
  }

  /** The two agree on every catalog without static records. */
  lemma AsWrittenAgreesWithoutStatics(arena: map<Id, Sym>, l: seq<Id>)
    requires forall i | 0 <= i < |l| :: !IsStatic(arena, l[i])
    ensures PruneAsWritten(arena, l) == KeepNonStatic(arena, l) == l
  {
    KeepNonStaticNoStatics(arena, l);
  }
}
