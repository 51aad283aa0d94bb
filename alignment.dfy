/**
 * The order theory behind `_find_position` and `_align_children`
 * (astdiff/generator/with_move.py): the filtered child lists both functions build, and
 * when the matched children of a source node stand in the order of their partners among
 * the in-order children of a target node.
 */
module Alignment {
  import opened Base
  import opened Nodes
  import opened Context

  /** The nodes of a child list, as a set. */
  function Elems(xs: seq<NodeId>): (r: set<NodeId>)
    ensures forall x :: x in r <==> x in xs
  {
    set x | x in xs
  }

  /** One more element adds one member. */
  lemma ElemsSnoc(xs: seq<NodeId>, x: NodeId)
    ensures Elems(xs + [x]) == Elems(xs) + {x}
  {
    assert forall y :: y in xs + [x] <==> y in xs || y == x;
  }

  /** `[x for x in s if id(x) in marked]`. */
  function Marked(s: seq<NodeId>, marked: set<NodeId>): (r: seq<NodeId>)
    ensures forall x :: x in r <==> x in s && x in marked
    decreases |s|
  {
    if s == [] then []
    else
      assert forall x | x in s :: x == s[0] || x in s[1..];
      if s[0] in marked then [s[0]] + Marked(s[1..], marked) else Marked(s[1..], marked)
  }

  /** The rightmost element of `s` in `marked`. */
  function LastMarked(s: seq<NodeId>, marked: set<NodeId>): (r: Option<NodeId>)
    ensures r.None? <==> forall x | x in s :: x !in marked
    ensures r.Some? ==> r.value in s && r.value in marked
  {
    if s == [] then None
    else if s[|s| - 1] in marked then Some(s[|s| - 1])
    else
      assert forall x | x in s :: x in s[..|s| - 1] || x == s[|s| - 1];
      LastMarked(s[..|s| - 1], marked)
  }

  /** The elements of `s` before the first occurrence of `x`; all of them when `x` is absent. */
  function Before(s: seq<NodeId>, x: NodeId): (r: seq<NodeId>)
    ensures x !in r && |r| <= |s| && forall k | 0 <= k < |r| :: r[k] == s[k]
    ensures |r| < |s| ==> s[|r|] == x
  {
    match IndexOf(s, x)
    case None => s
    case Some(i) => s[..i]
  }

  /** The keys of `f` whose image is in `ys`. */
  function Into(f: map<NodeId, NodeId>, ys: seq<NodeId>): (r: set<NodeId>)
    ensures forall x :: x in r <==> x in f && f[x] in ys
  {
    set x | x in f && f[x] in ys
  }

  /** `matched_source_children`: the children of the source node whose partner is a child of the target node. */
  function MatchedSources(m: Matching, sc: seq<NodeId>, tc: seq<NodeId>): (r: seq<NodeId>)
    ensures forall x :: x in r <==> x in sc && x in m.st && m.st[x] in tc
    ensures NoDup(sc) ==> NoDup(r)
  {
    var r := Marked(sc, Into(m.st, tc));
    assert NoDup(sc) ==> NoDup(r) by {
      if NoDup(sc) { MarkedNoDup(sc, Into(m.st, tc)); }
    }
    r
  }

  /** `matched_target_children`: the children of the target node whose partner is a child of the source node. */
  function MatchedTargets(m: Matching, sc: seq<NodeId>, tc: seq<NodeId>): (r: seq<NodeId>)
    ensures forall y :: y in r <==> y in tc && y in m.ts && m.ts[y] in sc
    ensures NoDup(tc) ==> NoDup(r)
  {
    var r := Marked(tc, Into(m.ts, sc));
    assert NoDup(tc) ==> NoDup(r) by {
      if NoDup(tc) { MarkedNoDup(tc, Into(m.ts, sc)); }
    }
    r
  }

  /** The partners of matched source nodes, in order. */
  function Partners(m: Matching, xs: seq<NodeId>): (r: seq<NodeId>)
    ensures |r| == |xs|
    decreases |xs|
  {
    if xs == [] then []
    else
      var x := xs[|xs| - 1];
      Partners(m, xs[..|xs| - 1]) + [if x in m.st then m.st[x] else 0]
  }

  /**
   * The matched children `cs` of a source node stand in the order of their partners among
   * the children of the target node that are in order: listing the children of `cs` whose
   * partner is such a target child, and mapping each to its partner, gives exactly the
   * in-order target children, in order.
   */
  predicate Aligned(m: Matching, cs: seq<NodeId>, tc: seq<NodeId>, inOrder: set<NodeId>)
  {
    Partners(m, MatchedSources(m, cs, Marked(tc, inOrder))) == Marked(tc, inOrder)
  }

  // ---------------------------------------------------------------------------------------
  // Filtering

  lemma {:induction false} MarkedAppend(a: seq<NodeId>, b: seq<NodeId>, marked: set<NodeId>)
    ensures Marked(a + b, marked) == Marked(a, marked) + Marked(b, marked)
    decreases |a|
  {
    if a != [] {
      assert (a + b)[1..] == a[1..] + b;
      MarkedAppend(a[1..], b, marked);
    } else {
      assert a + b == b;
    }
  }

  /** The filter only looks at the elements of the list. */
  lemma {:induction false} MarkedSame(s: seq<NodeId>, a: set<NodeId>, b: set<NodeId>)
    requires forall x | x in s :: x in a <==> x in b
    ensures Marked(s, a) == Marked(s, b)
    decreases |s|
  {
    if s != [] {
      assert forall x | x in s[1..] :: x in s;
      MarkedSame(s[1..], a, b);
    }
  }

  /** Dropping exactly the unmarked elements is filtering by the marks. */
  lemma {:induction false} DropMarked(s: seq<NodeId>, d: set<NodeId>, marked: set<NodeId>)
    requires forall x | x in s :: x in d <==> x !in marked
    ensures Drop(s, d) == Marked(s, marked)
    decreases |s|
  {
    if s != [] {
      assert forall x | x in s[1..] :: x in s;
      DropMarked(s[1..], d, marked);
    }
  }

  /** A list whose elements are all marked passes the filter whole. */
  lemma {:induction false} MarkedAll(s: seq<NodeId>, marked: set<NodeId>)
    requires forall x | x in s :: x in marked
    ensures Marked(s, marked) == s
    decreases |s|
  {
    if s != [] {
      assert forall x | x in s[1..] :: x in s;
      MarkedAll(s[1..], marked);
    }
  }

  lemma {:induction false} MarkedNoDup(s: seq<NodeId>, marked: set<NodeId>)
    requires NoDup(s)
    ensures NoDup(Marked(s, marked))
    decreases |s|
  {
    if s != [] {
      assert NoDup(s[1..]) && s[0] !in s[1..];
      MarkedNoDup(s[1..], marked);
      if s[0] in marked {
        NoDupAppend([s[0]], Marked(s[1..], marked));
      }
    }
  }

  /** The rightmost marked element ends the filtered list; with none, the filtered list is empty. */
  lemma {:induction false} MarkedEndsWithLast(s: seq<NodeId>, marked: set<NodeId>)
    ensures LastMarked(s, marked).None? ==> Marked(s, marked) == []
    ensures LastMarked(s, marked).Some? ==>
      Marked(s, marked) != [] && Marked(s, marked)[|Marked(s, marked)| - 1] == LastMarked(s, marked).value
    decreases |s|
  {
    assert Marked(s, marked) == [] || Marked(s, marked)[0] in Marked(s, marked);
    if LastMarked(s, marked).Some? {
      var init := s[..|s| - 1];
      var x := s[|s| - 1];
      assert s == init + [x];
      MarkedAppend(init, [x], marked);
      assert Marked([x], marked) == if x in marked then [x] else [] by {
        assert [x][1..] == [];
      }
      if x !in marked {
        MarkedEndsWithLast(init, marked);
      }
    }
  }

  /** Everything before the first element of the filtered list is unmarked. */
  lemma {:induction false} MarkedHead(s: seq<NodeId>, marked: set<NodeId>)
    requires Marked(s, marked) != []
    ensures exists k | 0 <= k < |s| :: s[k] == Marked(s, marked)[0] && forall j | 0 <= j < k :: s[j] !in marked
    decreases |s|
  {
    if s[0] !in marked {
      MarkedHead(s[1..], marked);
      var k :| 0 <= k < |s| - 1 && s[1..][k] == Marked(s, marked)[0] && forall j | 0 <= j < k :: s[1..][j] !in marked;
      assert s[k + 1] == s[1..][k];
      forall j | 0 <= j < k + 1 ensures s[j] !in marked {
        if j > 0 { assert s[j] == s[1..][j - 1]; }
      }
    } else {
      assert s[0] == Marked(s, marked)[0];
    }
  }

  /** When `t` heads the filtered list, no marked element comes before it. */
  lemma FirstMarkedIsTarget(s: seq<NodeId>, marked: set<NodeId>, t: NodeId)
    requires Marked(s, marked) != [] && Marked(s, marked)[0] == t
    ensures forall y | y in Before(s, t) :: y !in marked
  {
    MarkedHead(s, marked);
    var k :| 0 <= k < |s| && s[k] == t && forall j | 0 <= j < k :: s[j] !in marked;
    var b := Before(s, t);
    assert |b| <= k;
    forall y | y in b ensures y !in marked {
      var i :| 0 <= i < |b| && b[i] == y;
      assert s[i] == y;
    }
  }

  /** Taking out an unmarked element does not change the filtered list. */
  lemma {:induction false} MarkedWithout(s: seq<NodeId>, x: NodeId, marked: set<NodeId>)
    requires x !in marked
    ensures Marked(Without(s, x), marked) == Marked(s, marked)
    decreases |s|
  {
    if s != [] {
      MarkedWithout(s[1..], x, marked);
      if s[0] != x {
        assert ([s[0]] + Without(s[1..], x))[1..] == Without(s[1..], x);
      }
    }
  }

  lemma {:induction false} PartnersAppend(m: Matching, a: seq<NodeId>, b: seq<NodeId>)
    ensures Partners(m, a + b) == Partners(m, a) + Partners(m, b)
    decreases |b|
  {
    if b == [] {
      assert a + b == a;
    } else {
      var init := b[..|b| - 1];
      assert (a + b)[..|a + b| - 1] == a + init;
      PartnersAppend(m, a, init);
    }
  }

  /** The partners of matched nodes, element by element. */
  lemma {:induction false} PartnersAt(m: Matching, xs: seq<NodeId>, k: nat)
    requires k < |xs| && xs[k] in m.st
    ensures Partners(m, xs)[k] == m.st[xs[k]]
    decreases |xs|
  {
    if k < |xs| - 1 {
      PartnersAt(m, xs[..|xs| - 1], k);
    }
  }

  /** In a list without repeats, a prefix is fixed by its last element. */
  lemma PrefixByLast(a1: seq<NodeId>, b1: seq<NodeId>, a2: seq<NodeId>, b2: seq<NodeId>)
    requires NoDup(a1 + b1) && a1 + b1 == a2 + b2
    requires a1 != [] && a2 != [] && a1[|a1| - 1] == a2[|a2| - 1]
    ensures a1 == a2 && b1 == b2
  {
    var l := a1 + b1;
    assert l[|a1| - 1] == a1[|a1| - 1];
    assert l[|a2| - 1] == a2[|a2| - 1];
    assert |a1| == |a2|;
    assert a1 == l[..|a1|] && a2 == l[..|a2|];
    assert b1 == l[|a1|..] && b2 == l[|a2|..];
  }

  // ---------------------------------------------------------------------------------------
  // Keeping the children aligned

  /** The matched sources of a list, split where the list is split. */
  lemma MatchedSourcesAppend(m: Matching, a: seq<NodeId>, b: seq<NodeId>, tc: seq<NodeId>)
    ensures MatchedSources(m, a + b, tc) == MatchedSources(m, a, tc) + MatchedSources(m, b, tc)
  {
    MarkedAppend(a, b, Into(m.st, tc));
  }

  /** Target lists that agree on the partners of the list give the same matched sources. */
  lemma MatchedSourcesSame(m: Matching, cs: seq<NodeId>, t1: seq<NodeId>, t2: seq<NodeId>)
    requires forall x | x in cs && x in m.st :: m.st[x] in t1 <==> m.st[x] in t2
    ensures MatchedSources(m, cs, t1) == MatchedSources(m, cs, t2)
  {
    MarkedSame(cs, Into(m.st, t1), Into(m.st, t2));
  }

  /**
   * Taking a child whose partner is not among the in-order target children out of the
   * source node keeps the children aligned.
   */
  lemma AlignedWithout(m: Matching, cs: seq<NodeId>, tc: seq<NodeId>, inOrder: set<NodeId>, x: NodeId)
    requires Aligned(m, cs, tc, inOrder)
    requires x in m.st ==> m.st[x] !in tc || m.st[x] !in inOrder
    ensures Aligned(m, Without(cs, x), tc, inOrder)
  {
    MarkedWithout(cs, x, Into(m.st, Marked(tc, inOrder)));
  }

  /**
   * Putting `y` (and `x`, which is no target child) in order splices `y` into the in-order
   * target children right after those before it.
   */
  lemma InOrderTargetsSplit(tc: seq<NodeId>, inOrder: set<NodeId>, x: NodeId, y: NodeId)
    requires NoDup(tc) && y in tc && y !in inOrder && (x == y || x !in tc)
    ensures var b := Before(tc, y);
      && |b| < |tc|
      && Marked(tc, inOrder) == Marked(b, inOrder) + Marked(tc[|b| + 1..], inOrder)
      && Marked(tc, inOrder + {x, y}) == Marked(b, inOrder) + [y] + Marked(tc[|b| + 1..], inOrder)
  {
    var S, S' := inOrder, inOrder + {x, y};
    var b := Before(tc, y);
    var i := |b|;
    assert i < |tc|;
    var a := tc[i + 1..];
    assert tc == b + [y] + a by {
      assert b == tc[..i];
    }
    assert y !in a by {
      forall j | i < j < |tc| ensures tc[j] != y { assert tc[i] == y; }
    }
    assert Marked([y], S) == [] && Marked([y], S') == [y] by {
      assert [y][1..] == [];
    }
    assert Marked(b, S) == Marked(b, S') by {
      MarkedSame(b, S, S');
    }
    assert Marked(a, S) == Marked(a, S') by {
      assert forall z | z in a :: z in tc;
      MarkedSame(a, S, S');
    }
    assert Marked(tc, S) == Marked(b, S) + Marked(a, S) by {
      MarkedAppend(b + [y], a, S);
      MarkedAppend(b, [y], S);
      assert Marked(b, S) + [] == Marked(b, S);
    }
    assert Marked(tc, S') == Marked(b, S) + [y] + Marked(a, S) by {
      MarkedAppend(b + [y], a, S');
      MarkedAppend(b, [y], S');
    }
  }

  /**
   * Aligned children split where the partner of the last in-order target child before the
   * cut stands: the children up to it are partnered with the in-order children before the
   * cut, the rest with those after it.
   */
  lemma AlignedSplit(m: Matching, cs: seq<NodeId>, t: seq<NodeId>, mb: seq<NodeId>, ma: seq<NodeId>, k: nat, last: Option<NodeId>)
    requires Partners(m, MatchedSources(m, cs, t)) == t && NoDup(t) && t == mb + ma
    requires last.None? ==> k == 0 && mb == []
    requires last.Some? ==>
      && 0 < k <= |cs| && cs[k - 1] in m.st && m.st[cs[k - 1]] == last.value
      && mb != [] && mb[|mb| - 1] == last.value
    ensures Partners(m, MatchedSources(m, cs[..k], t)) == mb
    ensures Partners(m, MatchedSources(m, cs[k..], t)) == ma
  {
    var p1, p2 := MatchedSources(m, cs[..k], t), MatchedSources(m, cs[k..], t);
    assert cs == cs[..k] + cs[k..];
    MatchedSourcesAppend(m, cs[..k], cs[k..], t);
    PartnersAppend(m, p1, p2);
    if k > 0 {
      assert mb[|mb| - 1] in t;
      PartnersEndWith(m, cs, k, t);
      PrefixByLast(Partners(m, p1), Partners(m, p2), mb, ma);
    }
  }

  /** The partners of the matched children up to a matched one end with its partner. */
  lemma PartnersEndWith(m: Matching, cs: seq<NodeId>, k: nat, t: seq<NodeId>)
    requires 0 < k <= |cs| && cs[k - 1] in m.st && m.st[cs[k - 1]] in t
    ensures var r := Partners(m, MatchedSources(m, cs[..k], t)); r != [] && r[|r| - 1] == m.st[cs[k - 1]]
  {
    var q := MatchedSources(m, cs[..k - 1], t);
    var p := MatchedSources(m, cs[..k], t);
    assert cs[..k] == cs[..k - 1] + [cs[k - 1]];
    MatchedSourcesAppend(m, cs[..k - 1], [cs[k - 1]], t);
    MatchedSingle(m, cs[k - 1], t);
    assert p[..|p| - 1] == q;
  }

  /**
   * The step of `_find_position` that keeps the children aligned: a source child `x`
   * partnered with the target child `y`, which is not yet in order, enters the children
   * right after the partner of the rightmost in-order sibling before `y` (first when there
   * is none), and then both join the in-order set.
   */
  lemma AlignedInsert(m: Matching, cs: seq<NodeId>, tc: seq<NodeId>, inOrder: set<NodeId>, x: NodeId, y: NodeId, k: nat)
    requires Bijective(m) && NoDup(tc)
    requires x in m.st && m.st[x] == y && y in tc && y !in inOrder && x !in cs && x !in tc
    requires Aligned(m, cs, tc, inOrder)
    requires LastMarked(Before(tc, y), inOrder).None? ==> k == 0
    requires LastMarked(Before(tc, y), inOrder).Some? ==>
      0 < k <= |cs| && cs[k - 1] in m.st && m.st[cs[k - 1]] == LastMarked(Before(tc, y), inOrder).value
    ensures Aligned(m, InsertAt(cs, k, x), tc, inOrder + {x, y})
  {
    var S, S' := inOrder, inOrder + {x, y};
    var b := Before(tc, y);
    InOrderTargetsSplit(tc, S, x, y);
    var mb, ma := Marked(b, S), Marked(tc[|b| + 1..], S);
    var T, T' := Marked(tc, S), Marked(tc, S');
    var p1, p2 := MatchedSources(m, cs[..k], T), MatchedSources(m, cs[k..], T);
    AlignedAt(m, cs, tc, inOrder, y, k);
    assert y in T' by {
      assert T' == mb + [y] + ma;
    }
    OthersKept(m, cs, k, T, T', x);
    InsertMatched(m, cs, k, x, T');
    assert Partners(m, [x]) == [y];
    PartnersAppend(m, p1 + [x], p2);
    PartnersAppend(m, p1, [x]);
    assert Partners(m, p1 + [x] + p2) == T';
  }

  /** Where `_find_position` puts the partner of `y`, the aligned children split into those before and after it. */
  lemma AlignedAt(m: Matching, cs: seq<NodeId>, tc: seq<NodeId>, inOrder: set<NodeId>, y: NodeId, k: nat)
    requires NoDup(tc) && y in tc && y !in inOrder
    requires Aligned(m, cs, tc, inOrder)
    requires LastMarked(Before(tc, y), inOrder).None? ==> k == 0
    requires LastMarked(Before(tc, y), inOrder).Some? ==>
      0 < k <= |cs| && cs[k - 1] in m.st && m.st[cs[k - 1]] == LastMarked(Before(tc, y), inOrder).value
    ensures var b := Before(tc, y);
      && Partners(m, MatchedSources(m, cs[..k], Marked(tc, inOrder))) == Marked(b, inOrder)
      && Partners(m, MatchedSources(m, cs[k..], Marked(tc, inOrder))) == Marked(tc[|b| + 1..], inOrder)
  {
    var S := inOrder;
    var b := Before(tc, y);
    var t, mb, ma := Marked(tc, S), Marked(b, S), Marked(tc[|b| + 1..], S);
    InOrderTargetsSplit(tc, S, y, y);
    MarkedNoDup(tc, S);
    PositionAfterLast(m, cs, b, S, k);
    AlignedSplit(m, cs, t, mb, ma, k, LastMarked(b, S));
  }

  /** The position of the inserted child, read off the rightmost in-order sibling before it. */
  lemma PositionAfterLast(m: Matching, cs: seq<NodeId>, b: seq<NodeId>, inOrder: set<NodeId>, k: nat)
    requires LastMarked(b, inOrder).None? ==> k == 0
    requires LastMarked(b, inOrder).Some? ==> 0 < k <= |cs| && cs[k - 1] in m.st && m.st[cs[k - 1]] == LastMarked(b, inOrder).value
    ensures LastMarked(b, inOrder).None? ==> k == 0 && Marked(b, inOrder) == []
    ensures LastMarked(b, inOrder).Some? ==> Marked(b, inOrder) != [] && Marked(b, inOrder)[|Marked(b, inOrder)| - 1] == LastMarked(b, inOrder).value
  {
    MarkedEndsWithLast(b, inOrder);
  }

  lemma MatchedSingle(m: Matching, x: NodeId, t: seq<NodeId>)
    requires x in m.st && m.st[x] in t
    ensures MatchedSources(m, [x], t) == [x]
  {
    assert [x][1..] == [];
    assert x in Into(m.st, t);
    assert Marked([x], Into(m.st, t)) == [x] + Marked([], Into(m.st, t));
  }

  /** Inserting a matched child puts it between the matched children before and after it. */
  lemma InsertMatched(m: Matching, cs: seq<NodeId>, k: nat, x: NodeId, t: seq<NodeId>)
    requires k <= |cs| && x in m.st && m.st[x] in t
    ensures MatchedSources(m, InsertAt(cs, k, x), t) == MatchedSources(m, cs[..k], t) + [x] + MatchedSources(m, cs[k..], t)
  {
    var a, b := cs[..k], cs[k..];
    InsertAtSplit(cs, k, x);
    MatchedSingle(m, x, t);
    MatchedSourcesAppend(m, a + [x], b, t);
    MatchedSourcesAppend(m, a, [x], t);
  }

  /** Adding the partner of a node outside the children to the target list changes none of their matches. */
  lemma OthersKept(m: Matching, cs: seq<NodeId>, k: nat, t: seq<NodeId>, t': seq<NodeId>, x: NodeId)
    requires Bijective(m) && x in m.st && x !in cs && k <= |cs|
    requires forall z :: z in t' <==> z in t || z == m.st[x]
    ensures MatchedSources(m, cs[..k], t') == MatchedSources(m, cs[..k], t)
    ensures MatchedSources(m, cs[k..], t') == MatchedSources(m, cs[k..], t)
  {
    assert forall z | z in cs && z in m.st :: m.st[z] != m.st[x];
    assert forall z | z in cs[..k] :: z in cs;
    assert forall z | z in cs[k..] :: z in cs;
    MatchedSourcesSame(m, cs[..k], t', t);
    MatchedSourcesSame(m, cs[k..], t', t);
  }

  /** Listing the partners of nodes matched pointwise gives the list they are matched with. */
  lemma {:induction false} PartnersPointwise(m: Matching, xs: seq<NodeId>, ys: seq<NodeId>)
    requires |xs| == |ys| && forall k | 0 <= k < |xs| :: xs[k] in m.st && m.st[xs[k]] == ys[k]
    ensures Partners(m, xs) == ys
    decreases |xs|
  {
    if xs != [] {
      PartnersPointwise(m, xs[..|xs| - 1], ys[..|ys| - 1]);
      assert ys == ys[..|ys| - 1] + [ys[|ys| - 1]];
    }
  }

  /** Once every target child is in order, aligned children list their partners exactly. */
  lemma AlignedComplete(m: Matching, cs: seq<NodeId>, tc: seq<NodeId>, inOrder: set<NodeId>)
    requires Aligned(m, cs, tc, inOrder) && forall y | y in tc :: y in inOrder
    ensures Partners(m, MatchedSources(m, cs, tc)) == tc
  {
    MarkedAll(tc, inOrder);
  }

  /** Every in-order target child has its partner among the source children `cs`. */
  predicate Partnered(m: Matching, cs: seq<NodeId>, tc: seq<NodeId>, inOrder: set<NodeId>)
  {
    forall y | y in tc && y in inOrder :: y in m.ts && m.ts[y] in cs
  }

  /**
   * The index `_find_position` hands `list.insert` for the partner of `y` among the
   * children `cs`: right after the partner of the rightmost in-order target child before
   * `y`, or 0 when there is none.
   */
  function AlignedPosition(m: Matching, cs: seq<NodeId>, tc: seq<NodeId>, inOrder: set<NodeId>, y: NodeId): (k: nat)
    ensures k <= |cs|
  {
    match LastMarked(Before(tc, y), inOrder)
    case None => 0
    case Some(z) => if z in m.ts && m.ts[z] in cs then IndexOf(cs, m.ts[z]).value + 1 else 0
  }

  /**
   * Inserting the partner of a target child that is not yet in order where
   * `_find_position` puts it keeps the children aligned, with both in order.
   */
  lemma AlignedInsertAt(m: Matching, cs: seq<NodeId>, tc: seq<NodeId>, inOrder: set<NodeId>, x: NodeId, y: NodeId)
    requires Bijective(m) && NoDup(tc)
    requires x in m.st && m.st[x] == y && y in tc && y !in inOrder && x !in cs && x !in tc
    requires Aligned(m, cs, tc, inOrder) && Partnered(m, cs, tc, inOrder)
    ensures Aligned(m, InsertAt(cs, AlignedPosition(m, cs, tc, inOrder, y), x), tc, inOrder + {x, y})
  {
    AlignedPositionAfter(m, cs, tc, inOrder, y);
    AlignedInsert(m, cs, tc, inOrder, x, y, AlignedPosition(m, cs, tc, inOrder, y));
  }

  /**
   * `_find_position` puts a node at the front when no earlier target sibling is in order,
   * and otherwise right after the partner of the last one that is.
   */
  lemma AlignedPositionAfter(m: Matching, cs: seq<NodeId>, tc: seq<NodeId>, inOrder: set<NodeId>, y: NodeId)
    requires Bijective(m) && y in tc && Partnered(m, cs, tc, inOrder)
    ensures var k := AlignedPosition(m, cs, tc, inOrder, y);
      && (LastMarked(Before(tc, y), inOrder).None? ==> k == 0)
      && (LastMarked(Before(tc, y), inOrder).Some? ==>
            0 < k <= |cs| && cs[k - 1] in m.st && m.st[cs[k - 1]] == LastMarked(Before(tc, y), inOrder).value)
  {
    var k := AlignedPosition(m, cs, tc, inOrder, y);
    var last := LastMarked(Before(tc, y), inOrder);
    if last.Some? {
      var z := last.value;
      var b := Before(tc, y);
      assert z in tc by {
        var i :| 0 <= i < |b| && b[i] == z;
        assert z == tc[i];
      }
      var x' := m.ts[z];
      assert x' in cs && m.st[x'] == z;
      var j := IndexOf(cs, x').value;
      assert k == j + 1 && cs[j] == x';
    }
  }

  /** The aligned position of `y` reads the partners of the targets left of it only. */
  lemma AlignedPositionSame(m: Matching, m1: Matching, cs: seq<NodeId>, tc: seq<NodeId>, inOrder: set<NodeId>, y: NodeId)
    requires forall z | z in tc && z != y :: (z in m.ts <==> z in m1.ts) && (z in m.ts ==> m1.ts[z] == m.ts[z])
    ensures AlignedPosition(m1, cs, tc, inOrder, y) == AlignedPosition(m, cs, tc, inOrder, y)
  {
    var b := Before(tc, y);
    var last := LastMarked(b, inOrder);
    if last.Some? {
      var i :| 0 <= i < |b| && b[i] == last.value;
      assert last.value == tc[i];
    }
  }

  /**
   * The children `cs` of a source node are arranged against the children `tc` of a target
   * node: the matched ones stand in the order of their in-order partners, and a target
   * child is in order exactly when its partner is among `cs`.
   */
  predicate ChildrenArranged(m: Matching, cs: seq<NodeId>, tc: seq<NodeId>, inOrder: set<NodeId>)
  {
    && Aligned(m, cs, tc, inOrder)
    && forall y | y in tc :: y in inOrder <==> y in m.ts && m.ts[y] in cs
  }

  /**
   * The partner `x` of a target child `y` that is not yet in order enters the source
   * children where `_find_position` puts it, and both join the in-order set: the children
   * stay arranged, under the matching `m1` that holds the new pair.
   */
  lemma ArrangedInsert(m: Matching, m1: Matching, cs: seq<NodeId>, tc: seq<NodeId>, inOrder: set<NodeId>,
                       x: NodeId, y: NodeId)
    requires Bijective(m1) && NoDup(tc)
    requires x in m1.st && m1.st[x] == y && y in tc && y !in inOrder && x !in cs && x !in tc
    requires ChildrenArranged(m, cs, tc, inOrder)
    requires forall c | c in cs :: (c in m.st <==> c in m1.st) && (c in m.st ==> m1.st[c] == m.st[c])
    requires forall z | z in tc && z != y :: (z in m.ts <==> z in m1.ts) && (z in m.ts ==> m1.ts[z] == m.ts[z])
    ensures ChildrenArranged(m1, InsertAt(cs, AlignedPosition(m, cs, tc, inOrder, y), x), tc, inOrder + {x, y})
  {
    var k := AlignedPosition(m, cs, tc, inOrder, y);
    AlignedSameOn(m, m1, cs, tc, inOrder);
    AlignedPositionSame(m, m1, cs, tc, inOrder, y);
    AlignedInsertAt(m1, cs, tc, inOrder, x, y);
    InsertAtMembers(cs, k, x);
  }

  /**
   * A source child whose partner is no child of the target node leaves the source
   * children: they stay arranged.
   */
  lemma ArrangedWithout(m: Matching, cs: seq<NodeId>, tc: seq<NodeId>, inOrder: set<NodeId>, x: NodeId)
    requires Bijective(m) && ChildrenArranged(m, cs, tc, inOrder)
    requires x in m.st ==> m.st[x] !in tc
    ensures ChildrenArranged(m, Without(cs, x), tc, inOrder)
  {
    AlignedWithout(m, cs, tc, inOrder, x);
  }

  /**
   * Arranged children stay arranged under another matching and in-order set that agree on
   * the children of both nodes.
   */
  lemma ArrangedSame(m: Matching, m1: Matching, cs: seq<NodeId>, tc: seq<NodeId>, a: set<NodeId>, b: set<NodeId>)
    requires ChildrenArranged(m, cs, tc, a)
    requires forall c | c in cs :: (c in m.st <==> c in m1.st) && (c in m.st ==> m1.st[c] == m.st[c])
    requires forall z | z in tc :: (z in m.ts <==> z in m1.ts) && (z in m.ts ==> m1.ts[z] == m.ts[z])
    requires forall z | z in tc :: z in a <==> z in b
    ensures ChildrenArranged(m1, cs, tc, b)
  {
    AlignedSameOn(m, m1, cs, tc, a);
    AlignedSameMarks(m1, cs, tc, a, b);
  }

  /** The partners of the listed nodes only depend on the pairs of those nodes. */
  lemma {:induction false} PartnersSame(m: Matching, m': Matching, xs: seq<NodeId>)
    requires forall x | x in xs :: (x in m.st <==> x in m'.st) && (x in m.st ==> m.st[x] == m'.st[x])
    ensures Partners(m, xs) == Partners(m', xs)
    decreases |xs|
  {
    if xs != [] {
      assert forall x | x in xs[..|xs| - 1] :: x in xs;
      PartnersSame(m, m', xs[..|xs| - 1]);
    }
  }

  /** Whether children are aligned only depends on the pairs of the children. */
  lemma AlignedSameOn(m: Matching, m': Matching, cs: seq<NodeId>, tc: seq<NodeId>, inOrder: set<NodeId>)
    requires forall x | x in cs :: (x in m.st <==> x in m'.st) && (x in m.st ==> m.st[x] == m'.st[x])
    requires Aligned(m, cs, tc, inOrder)
    ensures Aligned(m', cs, tc, inOrder)
  {
    var t := Marked(tc, inOrder);
    MarkedSame(cs, Into(m.st, t), Into(m'.st, t));
    PartnersSame(m, m', MatchedSources(m, cs, t));
  }

  /** Whether children are aligned only depends on which target children are in order. */
  lemma AlignedSameMarks(m: Matching, cs: seq<NodeId>, tc: seq<NodeId>, a: set<NodeId>, b: set<NodeId>)
    requires forall y | y in tc :: y in a <==> y in b
    requires Aligned(m, cs, tc, a)
    ensures Aligned(m, cs, tc, b)
  {
    MarkedSame(tc, a, b);
  }

  // ---------------------------------------------------------------------------------------
  // The longest common subsequence leaves the children aligned

  /** The elements of `u` at the indices `idx`. */
  function At(u: seq<NodeId>, idx: seq<nat>): (r: seq<NodeId>)
    requires forall k | 0 <= k < |idx| :: idx[k] < |u|
    ensures |r| == |idx| && forall k | 0 <= k < |idx| :: r[k] == u[idx[k]]
  {
    seq(|idx|, k requires 0 <= k < |idx| => u[idx[k]])
  }

  /** Strictly increasing indices into `u`. */
  predicate Increasing(u: seq<NodeId>, idx: seq<nat>)
  {
    && (forall k | 0 <= k < |idx| :: idx[k] < |u|)
    && (forall i, j | 0 <= i < j < |idx| :: idx[i] < idx[j])
  }

  /** Filtering a list without repeats by the elements of one of its subsequences gives that subsequence. */
  lemma {:induction false} MarkedSubsequence(u: seq<NodeId>, idx: seq<nat>)
    requires NoDup(u) && Increasing(u, idx)
    ensures Marked(u, Elems(At(u, idx))) == At(u, idx)
    decreases |u|
  {
    if u != [] {
      var e := Elems(At(u, idx));
      var v := u[1..];
      assert NoDup(v) && u[0] !in v;
      if idx != [] && idx[0] == 0 {
        var idx' := seq(|idx| - 1, k requires 0 <= k < |idx| - 1 => idx[k + 1] - 1);
        assert Increasing(v, idx') by {
          assert forall k | 1 <= k < |idx| :: idx[k] > idx[0];
        }
        MarkedSubsequence(v, idx');
        assert At(u, idx) == [u[0]] + At(v, idx');
        assert Marked(v, e) == Marked(v, Elems(At(v, idx'))) by {
          assert forall x | x in v :: x in e <==> x in Elems(At(v, idx'));
          MarkedSame(v, e, Elems(At(v, idx')));
        }
      } else {
        var idx' := seq(|idx|, k requires 0 <= k < |idx| => idx[k] - 1);
        assert forall k | 0 <= k < |idx| :: idx[k] > 0 by {
          forall k | 0 <= k < |idx| ensures idx[k] > 0 {
            if k > 0 { assert idx[0] < idx[k]; }
          }
        }
        assert Increasing(v, idx');
        MarkedSubsequence(v, idx');
        assert At(u, idx) == At(v, idx');
        assert u[0] !in e by {
          forall k | 0 <= k < |idx| ensures u[idx[k]] != u[0] {}
        }
        assert Marked(v, e) == Marked(v, Elems(At(v, idx'))) by {
          assert forall x | x in v :: x in e <==> x in Elems(At(v, idx'));
          MarkedSame(v, e, Elems(At(v, idx')));
        }
      }
    }
  }

  /** Filtering a filtered list again by a subset of the first marks filters the original by it. */
  lemma {:induction false} MarkedTwice(s: seq<NodeId>, a: set<NodeId>, b: set<NodeId>)
    requires forall x | x in s && x in b :: x in a
    ensures Marked(Marked(s, a), b) == Marked(s, b)
    decreases |s|
  {
    if s != [] {
      assert forall x | x in s[1..] :: x in s;
      MarkedTwice(s[1..], a, b);
      if s[0] in a {
        assert ([s[0]] + Marked(s[1..], a))[1..] == Marked(s[1..], a);
      }
    }
  }

  /** The target halves of the pairs, when exactly they are in order, are the in-order target children. */
  lemma LcsTargetsInOrder(m: Matching, sc: seq<NodeId>, tc: seq<NodeId>, ti: seq<nat>, inOrder: set<NodeId>)
    requires NoDup(tc) && Increasing(MatchedTargets(m, sc, tc), ti)
    requires forall y | y in tc :: y in inOrder <==> y in At(MatchedTargets(m, sc, tc), ti)
    ensures Marked(tc, inOrder) == At(MatchedTargets(m, sc, tc), ti)
  {
    var mtc := MatchedTargets(m, sc, tc);
    var lt := At(mtc, ti);
    MarkedSame(tc, inOrder, Elems(lt));
    MarkedTwice(tc, Into(m.ts, sc), Elems(lt));
    MarkedSubsequence(mtc, ti);
  }

  /** The source children partnered with the target halves of the pairs are the source halves. */
  lemma LcsSourcesMatched(m: Matching, sc: seq<NodeId>, tc: seq<NodeId>, si: seq<nat>, ti: seq<nat>)
    requires Bijective(m) && NoDup(sc) && |si| == |ti|
    requires Increasing(MatchedSources(m, sc, tc), si) && Increasing(MatchedTargets(m, sc, tc), ti)
    requires var ls, lt := At(MatchedSources(m, sc, tc), si), At(MatchedTargets(m, sc, tc), ti);
      forall k | 0 <= k < |si| :: m.st[ls[k]] == lt[k]
    ensures MatchedSources(m, sc, At(MatchedTargets(m, sc, tc), ti)) == At(MatchedSources(m, sc, tc), si)
  {
    var msc, mtc := MatchedSources(m, sc, tc), MatchedTargets(m, sc, tc);
    var ls, lt := At(msc, si), At(mtc, ti);
    forall x | x in sc ensures x in Into(m.st, lt) <==> x in Elems(ls) {
      if x in Into(m.st, lt) {
        var k :| 0 <= k < |lt| && lt[k] == m.st[x];
        assert m.ts[lt[k]] == x && m.ts[lt[k]] == ls[k];
      }
    }
    MarkedSame(sc, Into(m.st, lt), Elems(ls));
    MarkedTwice(sc, Into(m.st, tc), Elems(ls));
    MarkedSubsequence(msc, si);
  }

  /**
   * The pairs of a common subsequence of the matched children, increasing on both sides,
   * leave the children aligned once exactly their target halves are in order.
   */
  lemma AlignedLcs(m: Matching, sc: seq<NodeId>, tc: seq<NodeId>, si: seq<nat>, ti: seq<nat>, inOrder: set<NodeId>)
    requires Bijective(m) && NoDup(sc) && NoDup(tc) && |si| == |ti|
    requires Increasing(MatchedSources(m, sc, tc), si) && Increasing(MatchedTargets(m, sc, tc), ti)
    requires var ls, lt := At(MatchedSources(m, sc, tc), si), At(MatchedTargets(m, sc, tc), ti);
      forall k | 0 <= k < |si| :: m.st[ls[k]] == lt[k]
    requires forall y | y in tc :: y in inOrder <==> y in At(MatchedTargets(m, sc, tc), ti)
    ensures Aligned(m, sc, tc, inOrder)
  {
    LcsTargetsInOrder(m, sc, tc, ti, inOrder);
    LcsSourcesMatched(m, sc, tc, si, ti);
    PartnersPointwise(m, At(MatchedSources(m, sc, tc), si), At(MatchedTargets(m, sc, tc), ti));
  }
}
