/** Small value types and sequence helpers shared by every module of the model. */
module Base {

  /** Python's `None` or a value. */
  datatype Option<T> = None | Some(value: T)

  /** `sum(xs)`, folded from the left as Python's builtin does. */
  function Sum(xs: seq<int>): int
  {
    if xs == [] then 0 else Sum(xs[..|xs| - 1]) + xs[|xs| - 1]
  }

  /** Flattening of a sequence of sequences, left to right (`yield from` over each part). */
  function Concat<T>(xss: seq<seq<T>>): seq<T>
  {
    if xss == [] then [] else Concat(xss[..|xss| - 1]) + xss[|xss| - 1]
  }

  /** `max(xs)` of a non-empty sequence. */
  function MaxOf(xs: seq<int>): (m: int)
    requires xs != []
    ensures forall i | 0 <= i < |xs| :: xs[i] <= m
    ensures exists i | 0 <= i < |xs| :: xs[i] == m
  {
    if |xs| == 1 then xs[0]
    else
      var m' := MaxOf(xs[..|xs| - 1]);
      assert forall i | 0 <= i < |xs| - 1 :: xs[..|xs| - 1][i] == xs[i];
      if xs[|xs| - 1] > m' then xs[|xs| - 1] else m'
  }

  /** `base ** exponent` on Python's unbounded integers. */
  function Pow(base: int, exponent: nat): int
  {
    if exponent == 0 then 1 else base * Pow(base, exponent - 1)
  }

  /** No element occurs twice. */
  predicate NoDup<T(==)>(s: seq<T>)
  {
    forall i, j | 0 <= i < j < |s| :: s[i] != s[j]
  }

  /** The first index holding `x`, or None (`next((i for i, y in enumerate(s) if y is x), None)`). */
  function IndexOf<T(==)>(s: seq<T>, x: T): (r: Option<nat>)
    ensures r.None? <==> x !in s
    ensures r.Some? ==> r.value < |s| && s[r.value] == x && x !in s[..r.value]
  {
    if s == [] then None
    else if s[0] == x then Some(0)
    else
      match IndexOf(s[1..], x)
      case None => None
      case Some(i) =>
        assert s[1..][..i] == s[1..i + 1];
        assert s[..i + 1] == [s[0]] + s[1..i + 1];
        Some(i + 1)
  }

  /** The elements of `s` other than `x`, in order (`tuple(y for y in s if y is not x)`). */
  function Without<T(==)>(s: seq<T>, x: T): (r: seq<T>)
    ensures x !in r
    ensures forall y | y in s && y != x :: y in r
    ensures forall y | y in r :: y in s
    ensures x in s && NoDup(s) ==> |r| == |s| - 1
    ensures x !in s ==> r == s
    ensures NoDup(s) ==> NoDup(r)
  {
    if s == [] then []
    else if s[0] == x then
      assert NoDup(s) ==> x !in s[1..];
      Without(s[1..], x)
    else
      var rest := Without(s[1..], x);
      assert NoDup(s) ==> s[0] !in s[1..];
      assert NoDup(s) ==> s[0] !in rest;
      [s[0]] + rest
  }

  /** The elements of `s` outside `d`, in order. */
  function Drop<T(==)>(s: seq<T>, d: set<T>): (r: seq<T>)
    ensures forall y | y in r :: y in s && y !in d
    ensures forall y | y in s && y !in d :: y in r
    decreases |s|
  {
    if s == [] then []
    else
      assert forall y | y in s :: y == s[0] || y in s[1..];
      (if s[0] in d then [] else [s[0]]) + Drop(s[1..], d)
  }

  /** Taking one more element out of a filtered sequence filters by one more element. */
  lemma {:induction false} DropWithout<T>(s: seq<T>, d: set<T>, x: T)
    ensures Without(Drop(s, d), x) == Drop(s, d + {x})
    decreases |s|
  {
    if s != [] {
      DropWithout(s[1..], d, x);
      var rest := Drop(s[1..], d);
      if s[0] in d {
        assert Drop(s, d) == rest;
        assert Drop(s, d + {x}) == Drop(s[1..], d + {x});
      } else {
        var u := [s[0]] + rest;
        assert Drop(s, d) == u && u[0] == s[0] && u[1..] == rest;
        if s[0] == x {
          assert Without(u, x) == Without(rest, x);
          assert Drop(s, d + {x}) == Drop(s[1..], d + {x});
        } else {
          assert Without(u, x) == [s[0]] + Without(rest, x);
          assert Drop(s, d + {x}) == [s[0]] + Drop(s[1..], d + {x});
        }
      }
    }
  }

  /** Filtering by an element the sequence lacks changes nothing. */
  lemma {:induction false} DropAbsent<T>(s: seq<T>, d: set<T>, x: T)
    requires x !in s
    ensures Drop(s, d + {x}) == Drop(s, d)
    decreases |s|
  {
    if s != [] {
      DropAbsent(s[1..], d, x);
    }
  }

  /** Filtering by nothing keeps everything. */
  lemma {:induction false} DropNothing<T>(s: seq<T>)
    ensures Drop(s, {}) == s
    decreases |s|
  {
    if s != [] {
      DropNothing(s[1..]);
      assert s == [s[0]] + s[1..];
    }
  }

  /** The elements of `[x] + rest` after the first are those of `rest`, shifted by one. */
  lemma ConsAt<T>(x: T, rest: seq<T>)
    ensures ([x] + rest)[0] == x
    ensures forall j | 1 <= j <= |rest| :: ([x] + rest)[j] == rest[j - 1]
  {
  }

  /** Python's `list.insert(position, x)`: a position past the end appends. */
  function InsertAt<T>(s: seq<T>, position: nat, x: T): (r: seq<T>)
    ensures |r| == |s| + 1
    ensures var i := if position <= |s| then position else |s|;
      && r[i] == x
      && (forall k | 0 <= k < i :: r[k] == s[k])
      && (forall k | i < k < |r| :: r[k] == s[k - 1])
    decreases |s|
  {
    if position == 0 || s == [] then [x] + s else [s[0]] + InsertAt(s[1..], position - 1, x)
  }

  /** Every element of the inserted sequence other than the new one comes from the original. */
  lemma InsertAtFrom<T>(s: seq<T>, position: nat, x: T, k: nat)
    requires k < |InsertAt(s, position, x)| && InsertAt(s, position, x)[k] != x
    ensures InsertAt(s, position, x)[k] in s
  {
    var i := if position <= |s| then position else |s|;
    if k > i {
      assert InsertAt(s, position, x)[k] == s[k - 1];
    } else {
      assert InsertAt(s, position, x)[k] == s[k];
    }
  }

  /** The inserted sequence is the prefix, the new element and the suffix. */
  lemma InsertAtSplit<T>(s: seq<T>, position: nat, x: T)
    requires position <= |s|
    ensures InsertAt(s, position, x) == s[..position] + [x] + s[position..]
  {
    var r := InsertAt(s, position, x);
    var t := s[..position] + [x] + s[position..];
    forall k | 0 <= k < |r| ensures r[k] == t[k] {
      if k > position {
        assert t[k] == s[position..][k - position - 1];
      }
    }
  }

  /** Every element of the original sequence is still there after the insert. */
  lemma InsertAtHas<T>(s: seq<T>, position: nat, x: T, k: nat)
    requires k < |s|
    ensures s[k] in InsertAt(s, position, x)
  {
    var r := InsertAt(s, position, x);
    if k < (if position <= |s| then position else |s|) {
      assert r[k] == s[k];
    } else {
      assert r[k + 1] == s[k];
    }
  }

  /** Inserting a new element into a sequence without repetitions repeats nothing. */
  lemma InsertAtNoDup<T>(s: seq<T>, position: nat, x: T)
    requires NoDup(s) && x !in s
    ensures NoDup(InsertAt(s, position, x))
  {
    var r := InsertAt(s, position, x);
    var i := if position <= |s| then position else |s|;
    forall a, b | 0 <= a < b < |r| ensures r[a] != r[b] {
      var a' := if a < i then a else a - 1;
      var b' := if b < i then b else b - 1;
      if a != i && b != i {
        assert r[a] == s[a'] && r[b] == s[b'] && a' < b';
      }
    }
  }

  /** Inserting an element into a sequence adds exactly that element to its members. */
  lemma InsertAtMembers<T>(s: seq<T>, position: nat, x: T)
    ensures forall y :: y in InsertAt(s, position, x) <==> y in s || y == x
  {
    var r := InsertAt(s, position, x);
    forall y ensures y in r <==> y in s || y == x {
      if y in r && y != x {
        var k :| 0 <= k < |r| && r[k] == y;
        InsertAtFrom(s, position, x, k);
      }
      if y in s {
        var k :| 0 <= k < |s| && s[k] == y;
        InsertAtHas(s, position, x, k);
      }
    }
  }

  /** Taking the same element out of two permutations of each other leaves permutations. */
  lemma MultisetRemove<T>(a: seq<T>, b: seq<T>, i: nat)
    requires a != [] && i < |b| && b[i] == a[0] && multiset(a) == multiset(b)
    ensures multiset(a[1..]) == multiset(b[..i] + b[i + 1..])
  {
    assert a == [a[0]] + a[1..];
    assert b == b[..i] + [b[i]] + b[i + 1..];
    forall y ensures multiset(a[1..])[y] == multiset(b[..i] + b[i + 1..])[y] {
      assert multiset(a)[y] == multiset{a[0]}[y] + multiset(a[1..])[y];
      assert multiset(b)[y] == multiset(b[..i])[y] + multiset{b[i]}[y] + multiset(b[i + 1..])[y];
    }
  }

  lemma {:induction false} ConcatLength<T>(xss: seq<seq<T>>)
    ensures |Concat(xss)| == Sum(seq(|xss|, i requires 0 <= i < |xss| => |xss[i]|))
  {
    if xss != [] {
      var n := |xss|;
      ConcatLength(xss[..n - 1]);
      assert seq(n - 1, i requires 0 <= i < n - 1 => |xss[..n - 1][i]|)
          == seq(n, i requires 0 <= i < n => |xss[i]|)[..n - 1];
    }
  }

  lemma {:induction false} InConcat<T>(xss: seq<seq<T>>, x: T)
    ensures x in Concat(xss) <==> exists i | 0 <= i < |xss| :: x in xss[i]
  {
    if xss != [] {
      var n := |xss|;
      InConcat(xss[..n - 1], x);
      if x in Concat(xss[..n - 1]) {
        var i :| 0 <= i < n - 1 && x in xss[..n - 1][i];
        assert x in xss[i];
      }
      if exists i | 0 <= i < n :: x in xss[i] {
        var i :| 0 <= i < n && x in xss[i];
        if i < n - 1 { assert x in xss[..n - 1][i]; }
      }
    }
  }

  lemma {:induction false} ConcatAppend<T>(xss: seq<seq<T>>, yss: seq<seq<T>>)
    ensures Concat(xss + yss) == Concat(xss) + Concat(yss)
    decreases |yss|
  {
    if yss == [] {
      assert xss + yss == xss;
    } else {
      var n := |yss|;
      var init, last := yss[..n - 1], yss[n - 1];
      assert (xss + yss)[..|xss + yss| - 1] == xss + init;
      assert (xss + yss)[|xss + yss| - 1] == last;
      assert Concat(xss + yss) == Concat(xss + init) + last;
      ConcatAppend(xss, init);
      assert Concat(yss) == Concat(init) + last;
      assert Concat(xss) + Concat(init) + last == Concat(xss) + (Concat(init) + last);
    }
  }

  lemma ConcatSingle<T>(xs: seq<T>)
    ensures Concat([xs]) == xs
  {
    assert [xs][..0] == [];
  }

  lemma {:induction false} ConcatSameLengths<T, U>(xss: seq<seq<T>>, yss: seq<seq<U>>)
    requires |xss| == |yss| && forall i | 0 <= i < |xss| :: |xss[i]| == |yss[i]|
    ensures |Concat(xss)| == |Concat(yss)|
  {
    if xss != [] {
      ConcatSameLengths(xss[..|xss| - 1], yss[..|yss| - 1]);
    }
  }

  /** Parts that repeat nothing and share nothing concatenate to a sequence that repeats nothing. */
  lemma {:induction false} NoDupConcat<T>(xss: seq<seq<T>>)
    requires forall i | 0 <= i < |xss| :: NoDup(xss[i])
    requires forall i, j, x | 0 <= i < j < |xss| && x in xss[i] :: x !in xss[j]
    ensures NoDup(Concat(xss))
  {
    if xss != [] {
      var n := |xss|;
      var init := xss[..n - 1];
      NoDupConcat(init);
      forall x | x in Concat(init) ensures x !in xss[n - 1] {
        InConcat(init, x);
      }
      NoDupAppend(Concat(init), xss[n - 1]);
    }
  }

  /** Concatenation regroups freely. */
  lemma AppendAssoc<T>(a: seq<T>, b: seq<T>, c: seq<T>)
    ensures a + (b + c) == (a + b) + c
  {
  }

  /** A sequence that repeats nothing has as many distinct elements as positions. */
  lemma {:induction false} NoDupCard<T>(s: seq<T>, r: set<T>)
    requires NoDup(s) && forall x :: x in r <==> x in s
    ensures |r| == |s|
  {
    if s != [] {
      var n := |s|;
      var init := s[..n - 1];
      assert NoDup(init) by {
        forall i, j | 0 <= i < j < |init| ensures init[i] != init[j] { assert s[i] != s[j]; }
      }
      NoDupNotBefore(s, n - 1);
      NoDupCard(init, r - {s[n - 1]});
    }
  }

  /** In a sequence that repeats nothing, no element occurs before its own position. */
  lemma NoDupNotBefore<T>(s: seq<T>, k: nat)
    requires NoDup(s) && k < |s|
    ensures s[k] !in s[..k]
  {
  }

  lemma NoDupAppend<T>(a: seq<T>, b: seq<T>)
    requires NoDup(a) && NoDup(b) && forall x | x in a :: x !in b
    ensures NoDup(a + b)
  {
    forall i, j | 0 <= i < j < |a + b| ensures (a + b)[i] != (a + b)[j] {
      if j >= |a| && i < |a| {
        assert (a + b)[i] in a && (a + b)[j] in b;
      }
    }
  }

  /** A sequence repeats nothing exactly when each element occurs at most once in its multiset. */
  lemma {:induction false} NoDupMultiset<T>(s: seq<T>)
    ensures NoDup(s) <==> forall x | x in multiset(s) :: multiset(s)[x] == 1
  {
    if s != [] {
      var n := |s|;
      var init := s[..n - 1];
      assert s == init + [s[n - 1]];
      assert multiset(s) == multiset(init) + multiset{s[n - 1]};
      NoDupMultiset(init);
      if NoDup(s) {
        assert NoDup(init) by {
          forall i, j | 0 <= i < j < |init| ensures init[i] != init[j] { assert s[i] != s[j]; }
        }
      } else {
        var i, j :| 0 <= i < j < n && s[i] == s[j];
        if j < n - 1 {
          assert init[i] == init[j];
          var x :| x in multiset(init) && multiset(init)[x] != 1;
          assert multiset(s)[x] != 1;
        } else {
          assert init[i] in multiset(init);
          assert multiset(s)[s[i]] != 1;
        }
      }
    }
  }

  /** Locates position `i` of a concatenation: the part it falls in and its offset there. */
  lemma {:induction false} ConcatPosition<T>(xss: seq<seq<T>>, i: nat) returns (j: nat, o: nat)
    requires i < |Concat(xss)|
    ensures j < |xss| && o < |xss[j]|
    ensures Concat(xss)[i] == xss[j][o]
    ensures Concat(xss)[..i] == Concat(xss[..j]) + xss[j][..o]
  {
    var n := |xss|;
    var init := xss[..n - 1];
    if i < |Concat(init)| {
      j, o := ConcatPosition(init, i);
      assert init[..j] == xss[..j];
      assert Concat(xss)[..i] == Concat(init)[..i];
    } else {
      j, o := n - 1, i - |Concat(init)|;
      assert xss[..j] == init;
      assert Concat(xss)[..i] == Concat(init) + xss[j][..o];
    }
  }
}
