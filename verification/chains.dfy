/** The pointer-level view of one catalog: its head and tail pointers and the
    `next` fields of its records. `Links(l, c)` says the chain `c` spells out
    the sequence `l`. This is where `appendsym` and `freestaticsyms` are
    followed statement by statement, both the loop as its comments describe
    it and the loop as it is written. */
module Chains {
  import opened Wrappers
  import opened Defs
  import opened Data
  import opened Symbols

  /** A head/tail pair and the `next` field of every record. */
  datatype Chain = Chain(head: Option<Id>, tail: Option<Id>, next: map<Id, Option<Id>>)

  /** Walking `c.next` from `c.head` visits exactly `l`, never the same node
      twice, and stops at NULL; `c.tail` is the last node visited. */
  ghost predicate Links(l: seq<Id>, c: Chain)
  {
    Walk(l, c.head, c.next) && c.tail == Tail(l)
  }

  /** Following `next` from `from` visits exactly `l`, each node once, and
      then reaches NULL. */
  ghost predicate Walk(l: seq<Id>, from: Option<Id>, next: map<Id, Option<Id>>)
    decreases |l|
  {
    if |l| == 0 then from == None
    else from == Some(l[0]) && l[0] in next && l[0] !in l[1..] && Walk(l[1..], next[l[0]], next)
  }

  /** The same walk, stated position by position. */
  ghost predicate LinkedAt(l: seq<Id>, c: Chain)
  {
    && Distinct(l)
    && c.head == Head(l)
    && c.tail == Tail(l)
    && (forall i | 0 <= i < |l| :: l[i] in c.next)
    && (forall i | 0 <= i < |l| - 1 :: c.next[l[i]] == Some(l[i + 1]))
    && (|l| > 0 ==> c.next[l[|l| - 1]] == None)
  }

  /** A walk is a duplicate-free sequence whose every node points at the next
      one, the last at NULL. */
  lemma {:induction false} WalkAt(l: seq<Id>, from: Option<Id>, next: map<Id, Option<Id>>)
    ensures Walk(l, from, next) <==>
      && Distinct(l)
      && from == Head(l)
      && (forall i | 0 <= i < |l| :: l[i] in next)
      && (forall i | 0 <= i < |l| - 1 :: next[l[i]] == Some(l[i + 1]))
      && (|l| > 0 ==> next[l[|l| - 1]] == None)
    decreases |l|
  {
    if |l| > 0 && l[0] in next {
      var tl := l[1..];
      WalkAt(tl, next[l[0]], next);
      assert forall i | 0 <= i < |tl| :: tl[i] == l[i + 1];
      assert Distinct(l) <==> l[0] !in tl && Distinct(tl) by {
        if Distinct(l) {
          forall i, j | 0 <= i < j < |tl| ensures tl[i] != tl[j] {
            assert l[i + 1] != l[j + 1];
          }
        }
        if l[0] !in tl && Distinct(tl) {
          forall i, j | 0 <= i < j < |l| ensures l[i] != l[j] {
            if i == 0 { assert l[j] == tl[j - 1]; } else { assert tl[i - 1] != tl[j - 1]; }
          }
        }
      }
      assert (forall i | 0 <= i < |l| :: l[i] in next) <==> (forall i | 0 <= i < |tl| :: tl[i] in next) by {
        if forall i | 0 <= i < |tl| :: tl[i] in next {
          forall i | 0 <= i < |l| ensures l[i] in next {
            if i > 0 { assert l[i] == tl[i - 1]; }
          }
        }
      }
    }
  }

  lemma LinksAt(l: seq<Id>, c: Chain)
    ensures Links(l, c) <==> LinkedAt(l, c)
  {
    WalkAt(l, c.head, c.next);
  }

  /** The two assignments of `appendsym` (sym.c:31-38): the old tail, if
      any, points at `node`; `node` becomes the tail (and the head of an empty
      catalog) and points at NULL; no other `next` field changes. */
  function AppendLinked(c: Chain, node: Id): (r: Chain)
    ensures r.tail == Some(node) && node in r.next && r.next[node] == None
    ensures r.head == (if c.tail.Some? then c.head else Some(node))
    ensures c.tail.Some? && c.tail.value != node ==> c.tail.value in r.next && r.next[c.tail.value] == Some(node)
    ensures forall x | x in c.next && x != node && Some(x) != c.tail :: x in r.next && r.next[x] == c.next[x]
  {
    match c.tail
    case Some(t) => Chain(c.head, Some(node), c.next[t := Some(node)][node := None])
    case None => Chain(Some(node), Some(node), c.next[node := None])
  }

  /** The pointer code of `appendsym` appends: the chain it leaves spells the
      old catalog followed by `node`, with `node` as the tail and its `next`
      NULL, and `node` as the head too when the catalog was empty. */
  lemma {:induction false} AppendLinkedRefines(l: seq<Id>, c: Chain, node: Id)
    requires Links(l, c)
    requires node !in l
    ensures Links(l + [node], AppendLinked(c, node))
    ensures AppendLinked(c, node).tail == Some(node)
    ensures AppendLinked(c, node).next[node] == None
    ensures |l| == 0 ==> AppendLinked(c, node).head == Some(node)
    ensures |l| > 0 ==> AppendLinked(c, node).head == c.head
  {
    LinksAt(l, c);
    var l' := l + [node];
    var r := AppendLinked(c, node);
    forall i | 0 <= i < |l'| - 1
      ensures r.next[l'[i]] == Some(l'[i + 1])
    {
      if i < |l| - 1 {
        assert l'[i] != node && l'[i] != l[|l| - 1];
      }
    }
    LinksAt(l + [node], AppendLinked(c, node));
  }

  /** Unlinking the nodes strictly after position `a` up to and including
      position `b` by pointing `s[a]`'s `next` at `s[b]`'s successor. When `b`
      was the tail, `s[a]` becomes the tail. */
  lemma Splice(s: seq<Id>, c: Chain, a: int, b: int)
    requires LinkedAt(s, c)
    requires 0 <= a < b < |s|
    ensures LinkedAt(s[..a + 1] + s[b + 1..],
                  Chain(c.head, if b == |s| - 1 then Some(s[a]) else c.tail, c.next[s[a] := c.next[s[b]]]))
  {
    var s' := s[..a + 1] + s[b + 1..];
    var next' := c.next[s[a] := c.next[s[b]]];
    assert forall k | 0 <= k < |s'| :: s'[k] == s[if k <= a then k else k + (b - a)];
    forall i, j | 0 <= i < j < |s'| ensures s'[i] != s'[j] {
      var i0 := if i <= a then i else i + (b - a);
      var j0 := if j <= a then j else j + (b - a);
      assert s'[i] == s[i0] && s'[j] == s[j0] && i0 < j0;
    }
    forall k | 0 <= k < |s'| - 1
      ensures next'[s'[k]] == Some(s'[k + 1])
    {
      if k < a {
        assert s'[k] == s[k] != s[a];
      } else if k > a {
        assert s'[k] == s[k + (b - a)] != s[a];
      }
    }
    if b < |s| - 1 {
      assert s'[|s'| - 1] == s[|s| - 1] != s[a];
    }
  }

  /** Unlinking the head by moving the head pointer to its successor. When
      the head was also the tail, the tail follows the new (NULL) head. */
  lemma UnlinkHead(s: seq<Id>, c: Chain)
    requires LinkedAt(s, c)
    requires |s| > 0
    ensures LinkedAt(s[1..], Chain(c.next[s[0]], if |s| == 1 then c.next[s[0]] else c.tail, c.next))
  {
    var s' := s[1..];
    assert forall k | 0 <= k < |s'| :: s'[k] == s[k + 1];
  }

  // One visit of the corrected loop. The survivors among the nodes visited
  // so far are `kept`, the nodes still to visit are `rest`; the chain spells
  // `kept + rest`, `g` is `rest[0]` and `prev` is the tail of `kept`.

  /** At a visit, `g->next` is the next node still to visit, `g` is the tail
      exactly when it is the last node, and `prev` is not `g`. */
  lemma SpliceVisit(kept: seq<Id>, rest: seq<Id>, c: Chain)
    requires |rest| > 0
    requires Links(kept + rest, c)
    ensures rest[0] in c.next
    ensures c.next[rest[0]] == Head(rest[1..])
    ensures (Some(rest[0]) == c.tail) <==> |rest| == 1
    ensures Tail(kept).Some? ==> Tail(kept).value != rest[0]
  {
    LinksAt(kept + rest, c);
    var s := kept + rest;
    var p := |kept|;
    assert s[p] == rest[0];
    if |rest| > 1 { assert s[p + 1] == rest[1] == rest[1..][0]; }
    assert s[|s| - 1] == rest[|rest| - 1];
    if |kept| > 0 { assert s[p - 1] == kept[|kept| - 1]; }
  }

  /** A node that stays: the chain is untouched and the node joins the
      survivors. */
  lemma SpliceKeep(kept: seq<Id>, rest: seq<Id>, c: Chain)
    requires |rest| > 0
    requires Links(kept + rest, c)
    ensures Links((kept + [rest[0]]) + rest[1..], c)
  {
    assert kept + rest == (kept + [rest[0]]) + rest[1..];
  }

  /** A static node after the survivor `p`: `prev->next = g->next`, and the
      tail moves back to `prev` when `g` was the tail. */
  lemma SpliceDropAfter(kept: seq<Id>, rest: seq<Id>, c: Chain, p: Id)
    requires |rest| > 0
    requires Tail(kept) == Some(p)
    requires Links(kept + rest, c)
    ensures rest[0] in c.next
    ensures Links(kept + rest[1..],
                  Chain(c.head, if Some(rest[0]) == c.tail then Some(p) else c.tail, c.next[p := c.next[rest[0]]]))
  {
    var s := kept + rest;
    var n := |kept|;
    LinksAt(s, c);
    assert s[n] == rest[0] && s[n - 1] == kept[n - 1] == p;
    assert s[|s| - 1] == rest[|rest| - 1];
    assert (Some(rest[0]) == c.tail) <==> n == |s| - 1;
    assert s[..n] + s[n + 1..] == kept + rest[1..];
    Splice(s, c, n - 1, n);
    LinksAt(kept + rest[1..],
            Chain(c.head, if Some(rest[0]) == c.tail then Some(p) else c.tail, c.next[p := c.next[rest[0]]]));
  }

  /** A static node with no survivor before it: `Globhead = g->next`, and
      the tail follows the new head when `g` was the tail. */
  lemma SpliceDropHead(kept: seq<Id>, rest: seq<Id>, c: Chain)
    requires |rest| > 0
    requires kept == []
    requires Links(kept + rest, c)
    ensures rest[0] in c.next
    ensures Links(kept + rest[1..],
                  Chain(c.next[rest[0]], if Some(rest[0]) == c.tail then c.next[rest[0]] else c.tail, c.next))
  {
    assert kept + rest == rest && kept + rest[1..] == rest[1..];
    LinksAt(rest, c);
    assert (Some(rest[0]) == c.tail) <==> |rest| == 1;
    UnlinkHead(rest, c);
    LinksAt(rest[1..], Chain(c.next[rest[0]], if Some(rest[0]) == c.tail then c.next[rest[0]] else c.tail, c.next));
  }

  /** The survivors once the loop has also visited `rest`, starting from the
      survivors `kept`: the filter in the loop's own order of work. */
  ghost function SurvivorsAfter(arena: map<Id, Sym>, kept: seq<Id>, rest: seq<Id>): seq<Id>
    decreases |rest|
  {
    if |rest| == 0 then kept
    else if IsStatic(arena, rest[0]) then SurvivorsAfter(arena, kept, rest[1..])
    else SurvivorsAfter(arena, kept + [rest[0]], rest[1..])
  }

  /** Filtering visit by visit gives the survivors so far followed by the
      non-static records still to visit. */
  lemma {:induction false} SurvivorsAfterFilters(arena: map<Id, Sym>, kept: seq<Id>, rest: seq<Id>)
    ensures SurvivorsAfter(arena, kept, rest) == kept + KeepNonStatic(arena, rest)
    decreases |rest|
  {
    if |rest| > 0 {
      if IsStatic(arena, rest[0]) {
        SurvivorsAfterFilters(arena, kept, rest[1..]);
      } else {
        SurvivorsAfterFilters(arena, kept + [rest[0]], rest[1..]);
      }
    }
  }

  /** `freestaticsyms` with the two repairs its comments call for: the head
      case moves `Globhead` itself (sym.c:458 writes `Globhead->next`), and
      `prev` follows every node that stays (sym.c:473 assigns it only once
      the loop is over). The chain it leaves spells the globals without their
      static records, in order, with the tail at the last survivor. */
  method SpliceStatics(ghost l: seq<Id>, arena: map<Id, Sym>, c: Chain) returns (r: Chain)
    requires Links(l, c)
    ensures Links(KeepNonStatic(arena, l), r)
  {
    var head: Option<Id>, tail: Option<Id>, next: map<Id, Option<Id>> := c.head, c.tail, c.next;
    var g: Option<Id> := head;
    var prev: Option<Id> := None;
    // `kept` are the survivors among the nodes visited so far and `rest` the
    // nodes still to visit.
    ghost var kept: seq<Id>, rest: seq<Id> := [], l;
    assert kept + rest == l;
    SurvivorsAfterFilters(arena, [], l);
    while g.Some?
      invariant SurvivorsAfter(arena, kept, rest) == KeepNonStatic(arena, l)
      invariant Links(kept + rest, Chain(head, tail, next))
      invariant prev == Tail(kept)
      invariant g == Head(rest)
      decreases |rest|
    {
      var gid := g.value;
      ghost var c0 := Chain(head, tail, next);
      SpliceVisit(kept, rest, c0);
      if IsStatic(arena, gid) {
        if prev.Some? {
          SpliceDropAfter(kept, rest, c0, prev.value);
          next := next[prev.value := next[gid]];
          if g == tail {
            tail := prev;
          }
        } else {
          SpliceDropHead(kept, rest, c0);
          head := next[gid];
          if g == tail {
            tail := head;
          }
        }
      } else {
        SpliceKeep(kept, rest, c0);
        prev := g;
        kept := kept + [gid];
      }
      g := next[gid];
      rest := rest[1..];
    }
    assert kept + rest == kept;
    r := Chain(head, tail, next);
  }

  /** How one visit of the loop as written changes the view: a static node
      after the head cuts everything before it, any other node changes
      nothing. */
  lemma AsWrittenStep(arena: map<Id, Sym>, l: seq<Id>, i: int, m: int) returns (m': int)
    requires 0 <= i < |l|
    requires 1 <= m <= |l| && (m <= i || m == 1)
    requires AsWrittenView(arena, l, i) == [l[0]] + l[m..]
    ensures 1 <= m' <= |l| && m' <= i + 1
    ensures AsWrittenView(arena, l, i + 1) == [l[0]] + l[m'..]
    ensures IsStatic(arena, l[i]) && i > 0 ==> m' == i + 1
    ensures !(IsStatic(arena, l[i]) && i > 0) ==> AsWrittenView(arena, l, i + 1) == AsWrittenView(arena, l, i)
  {
    m' := if IsStatic(arena, l[i]) && i > 0 then i + 1 else m;
  }

  /** What a visit of the loop as written may rely on, for a chain that
      spells `[l[0]] + l[m..]` while `l[i]` is visited. */
  lemma AsWrittenFacts(arena: map<Id, Sym>, l: seq<Id>, i: int, m: int, c: Chain)
    requires 0 <= i < |l|
    requires 1 <= m <= |l| && (m <= i || m == 1)
    requires AsWrittenView(arena, l, i) == [l[0]] + l[m..]
    requires Links(AsWrittenView(arena, l, i), c)
    ensures l[i] in c.next && l[0] in c.next
    ensures c.next[l[i]] == (if i + 1 < |l| then Some(l[i + 1]) else None)
    ensures i > 0 ==> l[i] != l[0]
    ensures c.head == Some(l[0])
    ensures (Some(l[i]) == c.tail) <==> i == |l| - 1
  {
    var s := AsWrittenView(arena, l, i);
    LinksAt(s, c);
    var q := if i == 0 then 0 else 1 + i - m;
    assert s[q] == l[i];
    if i + 1 < |l| { assert s[q + 1] == l[i + 1]; }
    assert s[|s| - 1] == l[|l| - 1];
    assert (Some(l[i]) == c.tail) <==> q == |s| - 1;
    if i > 0 { assert s[0] == l[0] && q > 0; }
  }

  /** A static node after the head, visited by the loop as written: writing
      `Globhead->next` cuts everything from the head's successor to it. */
  lemma AsWrittenCut(arena: map<Id, Sym>, l: seq<Id>, i: int, m: int, c: Chain)
    requires 0 < i < |l|
    requires 1 <= m <= i
    requires AsWrittenView(arena, l, i) == [l[0]] + l[m..]
    requires Links(AsWrittenView(arena, l, i), c)
    requires IsStatic(arena, l[i])
    ensures l[i] in c.next
    ensures Links(AsWrittenView(arena, l, i + 1),
                  Chain(c.head, if Some(l[i]) == c.tail then c.head else c.tail, c.next[l[0] := c.next[l[i]]]))
  {
    var s := AsWrittenView(arena, l, i);
    var q := 1 + i - m;
    assert s[q] == l[i] && s[0] == l[0];
    assert s[q + 1..] == l[i + 1..];
    AsWrittenFacts(arena, l, i, m, c);
    LinksAt(s, c);
    assert (Some(l[i]) == c.tail) <==> q == |s| - 1;
    Splice(s, c, 0, q);
    assert s[..1] + s[q + 1..] == AsWrittenView(arena, l, i + 1);
    LinksAt(AsWrittenView(arena, l, i + 1),
            Chain(c.head, if Some(l[i]) == c.tail then c.head else c.tail, c.next[l[0] := c.next[l[i]]]));
  }

  /** One visit of the loop as written, at position `i` of a catalog whose
      chain currently spells `[l[0]] + l[m..]`. */
  lemma AsWrittenVisit(arena: map<Id, Sym>, l: seq<Id>, i: int, m: int, c: Chain) returns (m': int, c': Chain)
    requires 0 <= i < |l|
    requires 1 <= m <= |l| && (m <= i || m == 1)
    requires AsWrittenView(arena, l, i) == [l[0]] + l[m..]
    requires Links(AsWrittenView(arena, l, i), c)
    ensures l[i] in c.next && l[0] in c.next
    ensures c.head == Some(l[0])
    ensures c' == (if IsStatic(arena, l[i])
                   then Chain(c.head, if Some(l[i]) == c.tail then c.head else c.tail, c.next[l[0] := c.next[l[i]]])
                   else c)
    ensures l[i] in c'.next && c'.next[l[i]] == (if i + 1 < |l| then Some(l[i + 1]) else None)
    ensures 1 <= m' <= |l| && m' <= i + 1
    ensures AsWrittenView(arena, l, i + 1) == [l[0]] + l[m'..]
    ensures Links(AsWrittenView(arena, l, i + 1), c')
  {
    m' := AsWrittenStep(arena, l, i, m);
    AsWrittenFacts(arena, l, i, m, c);
    if IsStatic(arena, l[i]) {
      c' := Chain(c.head, if Some(l[i]) == c.tail then c.head else c.tail, c.next[l[0] := c.next[l[i]]]);
      if i == 0 {
        assert c'.next == c.next;
      } else {
        AsWrittenCut(arena, l, i, m, c);
      }
    } else {
      c' := c;
    }
  }

  /** `freestaticsyms` exactly as written (sym.c:441-474). `prev` starts
      NULL and is assigned only after the loop, so the loop invariant
      `prev == None` holds and the `prev != NULL` branches (sym.c:456 and
      sym.c:465) are proved unreachable. The head case runs for every static
      node and writes `Globhead->next`; the chain it leaves spells
      `PruneAsWritten`, not the filtered catalog. */
  method SpliceStaticsAsWritten(ghost l: seq<Id>, arena: map<Id, Sym>, c: Chain) returns (r: Chain)
    requires Links(l, c)
    ensures Links(PruneAsWritten(arena, l), r)
  {
    var head: Option<Id>, tail: Option<Id>, next: map<Id, Option<Id>> := c.head, c.tail, c.next;
    var prev: Option<Id> := None;
    var g: Option<Id> := head;
    ghost var i := 0;
    ghost var m := 1;
    while g.Some?
      invariant prev == None
      invariant 0 <= i <= |l|
      invariant g == (if i < |l| then Some(l[i]) else None)
      invariant Links(AsWrittenView(arena, l, i), Chain(head, tail, next))
      invariant |l| > 0 ==> 1 <= m <= |l| && (m <= i || m == 1)
      invariant |l| > 0 ==> AsWrittenView(arena, l, i) == [l[0]] + l[m..]
      decreases |l| - i
    {
      var gid := g.value;
      ghost var c';
      m, c' := AsWrittenVisit(arena, l, i, m, Chain(head, tail, next));
      if IsStatic(arena, gid) {
        if prev.Some? {
          assert false;                          // prev->next = g->next
        } else {
          next := next[head.value := next[gid]];  // Globhead->next = g->next
        }
        if g == tail {
          if prev.Some? {
            assert false;                        // Globtail = prev
          } else {
            tail := head;                        // Globtail = Globhead
          }
        }
        assert Chain(head, tail, next) == c';
      }
      g := next[gid];
      i := i + 1;
    }
    prev := g;
    r := Chain(head, tail, next);
  }
}
