/** The free comparison operators of SimpleVector, over the live elements of
    the two operands. Element ordering is a parameter `lt` (the element
    type's `operator<`), so the derived operators are checked for any
    ordering, not only for a total one. Only `lt` and element `==` are used,
    as the standard algorithms `std::equal` and
    `std::lexicographical_compare` do. */
module Comparison {

  ghost predicate Irreflexive<T(!new)>(lt: (T, T) -> bool)
  {
    forall x :: !lt(x, x)
  }

  ghost predicate Transitive<T(!new)>(lt: (T, T) -> bool)
  {
    forall x, y, z :: lt(x, y) && lt(y, z) ==> lt(x, z)
  }

  /** Any two distinct elements are ordered one way or the other. */
  ghost predicate Total<T(!new)>(lt: (T, T) -> bool)
  {
    forall x, y :: x != y ==> lt(x, y) || lt(y, x)
  }

  ghost predicate StrictTotalOrder<T(!new)>(lt: (T, T) -> bool)
  {
    Irreflexive(lt) && Transitive(lt) && Total(lt)
  }

  /** Neither element is less than the other. */
  predicate Equivalent<T>(lt: (T, T) -> bool, x: T, y: T)
  {
    !lt(x, y) && !lt(y, x)
  }

  /** `std::equal(a.begin(), a.end(), b.begin())`: the elements of `a` agree
      with the first `|a|` elements of `b`, which must be at least as long. */
  function RangeEqual<T(==)>(a: seq<T>, b: seq<T>): (r: bool)
    requires |a| <= |b|
    ensures r <==> a == b[..|a|]
  {
    if |a| == 0 then true
    else
      assert a == [a[0]] + a[1..] && b[..|a|] == [b[0]] + b[1..][..|a| - 1];
      a[0] == b[0] && RangeEqual(a[1..], b[1..])
  }

  /** `operator==`: same size, then element-wise equality. */
  function Equal<T(==)>(lhs: seq<T>, rhs: seq<T>): (r: bool)
    ensures r <==> lhs == rhs
    ensures r <==> |lhs| == |rhs| && forall k :: 0 <= k < |lhs| ==> lhs[k] == rhs[k]
  {
    |lhs| == |rhs| && RangeEqual(lhs, rhs)
  }

  /** `operator!=`, derived as the negation of `==`. */
  function NotEqual<T(==)>(lhs: seq<T>, rhs: seq<T>): (r: bool)
    ensures r <==> |lhs| != |rhs| || exists k :: 0 <= k < |lhs| && k < |rhs| && lhs[k] != rhs[k]
  {
    !Equal(lhs, rhs)
  }

  /** `std::lexicographical_compare` over two ranges: walk both while neither
      is exhausted; the first position where one element is less decides;
      if no position decides, `a` is less exactly when it ran out first. */
  function LexicographicalCompare<T>(a: seq<T>, b: seq<T>, lt: (T, T) -> bool): bool
  {
    if |a| == 0 || |b| == 0 then |a| == 0 && |b| != 0
    else if lt(a[0], b[0]) then true
    else if lt(b[0], a[0]) then false
    else LexicographicalCompare(a[1..], b[1..], lt)
  }

  /** `a` is lexicographically less than `b` with the first decisive position
      at `k`: all earlier positions are equivalent, and at `k` either
      `a[k] < b[k]`, or `a` has ended while `b` has not. */
  ghost predicate LessAt<T>(a: seq<T>, b: seq<T>, lt: (T, T) -> bool, k: nat)
  {
    k <= |a| && k <= |b| &&
    (forall j :: 0 <= j < k ==> Equivalent(lt, a[j], b[j])) &&
    ((k < |a| && k < |b| && lt(a[k], b[k])) || (k == |a| && k < |b|))
  }

  /** The comparison algorithm decides exactly the lexicographic order. */
  lemma {:induction false} LexicographicalCompareMeaning<T>(a: seq<T>, b: seq<T>, lt: (T, T) -> bool)
    ensures LexicographicalCompare(a, b, lt) <==> exists k :: LessAt(a, b, lt, k)
  {
    if |a| == 0 || |b| == 0 {
      if |a| == 0 && |b| != 0 {
        assert LessAt(a, b, lt, 0);
      }
    } else if lt(a[0], b[0]) {
      assert LessAt(a, b, lt, 0);
    } else if lt(b[0], a[0]) {
      assert !Equivalent(lt, a[0], b[0]) && !LessAt(a, b, lt, 0);
    } else {
      var a', b' := a[1..], b[1..];
      LexicographicalCompareMeaning(a', b', lt);
      if exists k :: LessAt(a, b, lt, k) {
        var k: nat :| LessAt(a, b, lt, k);
        assert k > 0;
        assert LessAt(a', b', lt, k - 1) by {
          forall j | 0 <= j < k - 1
            ensures Equivalent(lt, a'[j], b'[j])
          {
            assert Equivalent(lt, a[j + 1], b[j + 1]);
          }
        }
      }
      if exists k :: LessAt(a', b', lt, k) {
        var k: nat :| LessAt(a', b', lt, k);
        assert LessAt(a, b, lt, k + 1) by {
          forall j | 0 <= j < k + 1
            ensures Equivalent(lt, a[j], b[j])
          {
            if j > 0 {
              assert Equivalent(lt, a'[j - 1], b'[j - 1]);
            }
          }
        }
      }
    }
  }

  /** `operator<`: lexicographic order. */
  function Less<T>(lhs: seq<T>, rhs: seq<T>, lt: (T, T) -> bool): (r: bool)
    ensures r <==> exists k :: LessAt(lhs, rhs, lt, k)
  {
    LexicographicalCompareMeaning(lhs, rhs, lt);
    LexicographicalCompare(lhs, rhs, lt)
  }

  /** `operator>`, derived as `rhs < lhs`. */
  function Greater<T>(lhs: seq<T>, rhs: seq<T>, lt: (T, T) -> bool): (r: bool)
    ensures r <==> exists k :: LessAt(rhs, lhs, lt, k)
  {
    Less(rhs, lhs, lt)
  }

  /** `operator<=`, derived as `!(lhs > rhs)`. */
  function LessOrEqual<T>(lhs: seq<T>, rhs: seq<T>, lt: (T, T) -> bool): (r: bool)
    ensures r <==> forall k :: !LessAt(rhs, lhs, lt, k)
  {
    !Greater(lhs, rhs, lt)
  }

  /** `operator>=`, derived as `!(lhs < rhs)`. */
  function GreaterOrEqual<T>(lhs: seq<T>, rhs: seq<T>, lt: (T, T) -> bool): (r: bool)
    ensures r <==> forall k :: !LessAt(lhs, rhs, lt, k)
  {
    !Less(lhs, rhs, lt)
  }

  /** With an irreflexive element order no vector is less than itself. */
  lemma {:induction false} LessIrreflexive<T(!new)>(a: seq<T>, lt: (T, T) -> bool)
    requires Irreflexive(lt)
    ensures !Less(a, a, lt)
  {
    if |a| > 0 {
      assert !lt(a[0], a[0]);
      LessIrreflexive(a[1..], lt);
    }
  }

  /** With a strict partial element order, `<` is asymmetric. */
  lemma {:induction false} LessAsymmetric<T(!new)>(a: seq<T>, b: seq<T>, lt: (T, T) -> bool)
    requires Irreflexive(lt) && Transitive(lt)
    ensures Less(a, b, lt) ==> !Less(b, a, lt)
  {
    if |a| > 0 && |b| > 0 {
      if lt(a[0], b[0]) {
        var x, y := a[0], b[0];
        assert !lt(y, x) by {
          assert lt(x, y) && lt(y, x) ==> lt(x, x);
        }
      } else if !lt(b[0], a[0]) {
        LessAsymmetric(a[1..], b[1..], lt);
      }
    }
  }

  /** With a total element order, two different vectors are ordered. */
  lemma {:induction false} LessTotal<T(!new)>(a: seq<T>, b: seq<T>, lt: (T, T) -> bool)
    requires Total(lt)
    ensures a != b ==> Less(a, b, lt) || Less(b, a, lt)
  {
    if a != b && |a| > 0 && |b| > 0 && !lt(a[0], b[0]) && !lt(b[0], a[0]) {
      assert a[0] == b[0];
      assert a == [a[0]] + a[1..] && b == [b[0]] + b[1..];
      LessTotal(a[1..], b[1..], lt);
    }
  }

  /** With a strict total element order, `<` is transitive. */
  lemma {:induction false} LessTransitive<T(!new)>(a: seq<T>, b: seq<T>, c: seq<T>, lt: (T, T) -> bool)
    requires StrictTotalOrder(lt)
    requires Less(a, b, lt) && Less(b, c, lt)
    ensures Less(a, c, lt)
  {
    if |a| > 0 && |b| > 0 && |c| > 0 {
      if !lt(a[0], b[0]) {
        assert a[0] == b[0];
      }
      if !lt(b[0], c[0]) {
        assert b[0] == c[0];
      }
      if !lt(a[0], c[0]) {
        assert a[0] == b[0] == c[0] && !lt(c[0], a[0]);
        LessTransitive(a[1..], b[1..], c[1..], lt);
      }
    }
  }

  /** A proper prefix is less than the longer vector, for ANY element order. */
  lemma {:induction false} ProperPrefixIsLess<T>(a: seq<T>, b: seq<T>, lt: (T, T) -> bool)
    requires |b| > 0
    ensures Less(a, a + b, lt)
  {
    if |a| > 0 {
      assert (a + b)[0] == a[0] && (a + b)[1..] == a[1..] + b;
      ProperPrefixIsLess(a[1..], b, lt);
    }
  }

  /** With an irreflexive element order, a vector is not less than its prefix. */
  lemma {:induction false} NotLessThanPrefix<T(!new)>(a: seq<T>, b: seq<T>, lt: (T, T) -> bool)
    requires Irreflexive(lt)
    ensures !Less(a + b, a, lt)
  {
    if |a| > 0 {
      assert (a + b)[0] == a[0] && (a + b)[1..] == a[1..] + b;
      assert !lt(a[0], a[0]);
      NotLessThanPrefix(a[1..], b, lt);
    }
  }

  /** For a strict total element order the six operators are consistent:
      exactly one of `<`, `==`, `>` holds, `<=` is `<` or `==`, `>=` is `>`
      or `==`, and `!=` is the negation of `==`. */
  lemma DerivedOperatorsConsistent<T(!new)>(a: seq<T>, b: seq<T>, lt: (T, T) -> bool)
    requires StrictTotalOrder(lt)
    ensures Less(a, b, lt) || Equal(a, b) || Greater(a, b, lt)
    ensures !(Less(a, b, lt) && Equal(a, b)) && !(Less(a, b, lt) && Greater(a, b, lt))
    ensures !(Equal(a, b) && Greater(a, b, lt))
    ensures LessOrEqual(a, b, lt) <==> Less(a, b, lt) || Equal(a, b)
    ensures GreaterOrEqual(a, b, lt) <==> Greater(a, b, lt) || Equal(a, b)
    ensures NotEqual(a, b) <==> !Equal(a, b)
  {
    LessIrreflexive(a, lt);
    LessAsymmetric(a, b, lt);
    LessTotal(a, b, lt);
  }

  /** Appending to one of two equal vectors breaks equality and makes the
      longer one greater, whatever the element order. */
  lemma AppendMakesGreater<T>(a: seq<T>, x: T, lt: (T, T) -> bool)
    ensures NotEqual(a + [x], a)
    ensures Greater(a + [x], a, lt)
  {
    ProperPrefixIsLess(a, [x], lt);
  }
}
