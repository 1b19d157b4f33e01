/**
  Algebraic laws of the list engine: how the operations of `Lists` relate
  to one another. Most equalities between lists are shown by comparing
  their elements and then appealing to `ElemsInjective`.
*/
module ListLaws {
  import opened Wrappers
  import opened Lists

  /** Two lists with the same elements are the same list. */
  lemma {:induction false} ElemsInjective<T>(a: List<T>, b: List<T>)
    requires Elems(a) == Elems(b)
    ensures a == b
  {
    match a
    case Nil =>
    case Cons(x, ra) =>
      assert Elems(b)[0] == x;
      assert Elems(ra) == Elems(a)[1..] == Elems(b)[1..] == Elems(b.tail);
      ElemsInjective(ra, b.tail);
  }

  // ------------------------------------------------------------ construction

  /** `length(cons(x, l)) == 1 + length(l)`, and `is_empty` holds exactly of length 0. */
  lemma LengthLaws<T>(x: T, l: List<T>)
    ensures |Elems(Cons(x, l))| == 1 + |Elems(l)|
    ensures IsEmpty(l) <==> |Elems(l)| == 0
    ensures !IsEmpty(Cons(x, l))
  {
  }

  // ------------------------------------------------------------ combination

  /** `append(l, x)` is `concat(l, [x])`. */
  lemma {:induction false} AppendIsConcat<T>(l: List<T>, x: T)
    ensures Append(l, x) == Concat(l, Cons(x, Nil))
  {
    assert Elems(Cons(x, Nil)) == [x];
    ElemsInjective(Append(l, x), Concat(l, Cons(x, Nil)));
  }

  /** The empty list is a right unit of `concat`. */
  lemma {:induction false} ConcatNilRight<T>(a: List<T>)
    ensures Concat(a, Nil) == a
  {
    assert Elems(a) + [] == Elems(a);
    ElemsInjective(Concat(a, Nil), a);
  }

  lemma {:induction false} ConcatAssoc<T>(a: List<T>, b: List<T>, c: List<T>)
    ensures Concat(Concat(a, b), c) == Concat(a, Concat(b, c))
  {
    assert (Elems(a) + Elems(b)) + Elems(c) == Elems(a) + (Elems(b) + Elems(c));
    ElemsInjective(Concat(Concat(a, b), c), Concat(a, Concat(b, c)));
  }

  /** Dropping the length of `a` from `concat(a, b)` gives back `b`; taking it gives back `a`. */
  lemma {:induction false} SliceConcat<T>(a: List<T>, b: List<T>)
    ensures Drop(Concat(a, b), |Elems(a)|) == b
    ensures Take(Concat(a, b), |Elems(a)|) == a
  {
    var ab := Elems(a) + Elems(b);
    assert ab[|Elems(a)|..] == Elems(b);
    assert ab[..|Elems(a)|] == Elems(a);
    ElemsInjective(Drop(Concat(a, b), |Elems(a)|), b);
    ElemsInjective(Take(Concat(a, b), |Elems(a)|), a);
  }

  /** `reverse_acc(l, acc)` is `concat(reverse(l), acc)`. */
  lemma {:induction false} ReverseAccIsConcat<T>(l: List<T>, acc: List<T>)
    ensures ReverseAcc(l, acc) == Concat(Reverse(l), acc)
  {
    assert Elems(ReverseAcc(l, Nil)) == SeqReverse(Elems(l)) + [];
    ElemsInjective(ReverseAcc(l, acc), Concat(Reverse(l), acc));
  }

  /** Reversing twice gives back the original list. */
  lemma {:induction false} ReverseInvolutive<T>(l: List<T>)
    ensures Reverse(Reverse(l)) == l
  {
    var s, r, rr := Elems(l), Elems(Reverse(l)), Elems(Reverse(Reverse(l)));
    assert |rr| == |s|;
    forall i | 0 <= i < |s|
      ensures rr[i] == s[i]
    {
      assert rr[i] == r[|r| - 1 - i];
    }
    ElemsInjective(Reverse(Reverse(l)), l);
  }

  /** Reversing a concatenation reverses and swaps the parts. */
  lemma {:induction false} ReverseConcat<T>(a: List<T>, b: List<T>)
    ensures Reverse(Concat(a, b)) == Concat(Reverse(b), Reverse(a))
  {
    var sa, sb := Elems(a), Elems(b);
    var lhs, rhs := Elems(Reverse(Concat(a, b))), Elems(Concat(Reverse(b), Reverse(a)));
    assert |lhs| == |rhs|;
    forall i | 0 <= i < |lhs|
      ensures lhs[i] == rhs[i]
    {
      if i < |sb| {
        assert rhs[i] == Elems(Reverse(b))[i];
      } else {
        assert rhs[i] == Elems(Reverse(a))[i - |sb|];
      }
    }
    ElemsInjective(Reverse(Concat(a, b)), Concat(Reverse(b), Reverse(a)));
  }

  // ---------------------------------------------------------------- folding

  lemma {:induction false} FoldLConcat<T, A>(a: List<T>, b: List<T>, f: (A, T) -> A, z: A)
    ensures FoldL(Concat(a, b), f, z) == FoldL(b, f, FoldL(a, f, z))
  {
    match a
    case Nil =>
    case Cons(h, rest) => FoldLConcat(rest, b, f, f(z, h));
  }

  lemma {:induction false} FoldRConcat<T, A>(a: List<T>, b: List<T>, f: (A, T) -> A, z: A)
    ensures FoldR(Concat(a, b), f, z) == FoldR(a, f, FoldR(b, f, z))
  {
    match a
    case Nil =>
    case Cons(h, rest) => FoldRConcat(rest, b, f, z);
  }

  /**
    `foldr` is `foldl` over the reversed list: both call `f(acc, elem)`, and
    `foldr` meets the last element first.
  */
  lemma {:induction false} FoldRIsFoldLOfReverse<T, A>(l: List<T>, f: (A, T) -> A, z: A)
    ensures FoldR(l, f, z) == FoldL(Reverse(l), f, z)
  {
    match l
    case Nil =>
    case Cons(h, rest) =>
      FoldRIsFoldLOfReverse(rest, f, z);
      ReverseConcat(Cons(h, Nil), rest);
      assert Concat(Cons(h, Nil), rest) == l;
      assert Elems(Reverse(Cons(h, Nil))) == [h] == Elems(Cons(h, Nil));
      ElemsInjective(Reverse(Cons(h, Nil)), Cons(h, Nil));
      FoldLConcat(Reverse(rest), Cons(h, Nil), f, z);
  }

  // ---------------------------------------------------------------- slicing

  /** `concat(take(l, n), drop(l, n)) == l` for every `n`, negative or past the end included. */
  lemma {:induction false} TakeDropSplit<T>(l: List<T>, n: int)
    ensures Concat(Take(l, n), Drop(l, n)) == l
  {
    var s, k := Elems(l), Clamp(n, |Elems(l)|);
    assert s[..k] + s[k..] == s;
    ElemsInjective(Concat(Take(l, n), Drop(l, n)), l);
  }

  /** `concat(takeWhile(l, p), dropWhile(l, p)) == l`. */
  lemma {:induction false} TakeWhileDropWhileSplit<T>(l: List<T>, p: T -> bool)
    ensures Concat(TakeWhile(l, p), DropWhile(l, p)) == l
  {
    match l
    case Nil =>
    case Cons(h, rest) =>
      if p(h) {
        TakeWhileDropWhileSplit(rest, p);
      }
  }

  /** `dropWhile` drops exactly as many elements as `takeWhile` keeps. */
  lemma {:induction false} DropWhileIsDrop<T>(l: List<T>, p: T -> bool)
    ensures DropWhile(l, p) == Drop(l, |Elems(TakeWhile(l, p))|)
  {
    TakeWhileDropWhileSplit(l, p);
    SliceConcat(TakeWhile(l, p), DropWhile(l, p));
  }

  // --------------------------------------------------------- transformation

  /** Mapping the identity gives back the same list. */
  lemma {:induction false} MapIdentity<T>(l: List<T>)
    ensures Map(l, x => x) == l
  {
    var m := Map(l, x => x);
    assert Elems(m) == Elems(l);
    ElemsInjective(m, l);
  }

  /** Mapping twice is mapping the composition. */
  lemma {:induction false} MapFusion<T>(l: List<T>, f: T -> T, g: T -> T)
    ensures Map(Map(l, f), g) == Map(l, x => g(f(x)))
  {
    var lhs, rhs := Map(Map(l, f), g), Map(l, x => g(f(x)));
    assert Elems(lhs) == Elems(rhs);
    ElemsInjective(lhs, rhs);
  }

  /** `filter` gives back an equal list exactly when every element satisfies `p`. */
  lemma {:induction false} FilterKeepsAllIff<T>(l: List<T>, p: T -> bool)
    ensures Filter(l, p) == l <==> All(l, p)
  {
    match l
    case Nil =>
    case Cons(h, rest) =>
      FilterKeepsAllIff(rest, p);
      if !p(h) {
        assert |Elems(Filter(l, p))| <= |Elems(rest)| < |Elems(l)| by {
          FilterLengthBound(rest, p);
        }
      }
  }

  lemma {:induction false} FilterLengthBound<T>(l: List<T>, p: T -> bool)
    ensures |Elems(Filter(l, p))| <= |Elems(l)|
  {
    match l
    case Nil =>
    case Cons(h, rest) => FilterLengthBound(rest, p);
  }

  /** What `filter p` keeps and what `filter (not p)` keeps add up to the input, as a multiset. */
  lemma FilterSplitMultiset<T>(l: List<T>, p: T -> bool)
    ensures multiset(Elems(Filter(l, p))) + multiset(Elems(Filter(l, Not(p)))) == multiset(Elems(l))
  {
  }

  /** `length(filter(l, p)) + length(filter(l, not p)) == length(l)`. */
  lemma FilterComplementLength<T>(l: List<T>, p: T -> bool)
    ensures |Elems(Filter(l, p))| + |Elems(Filter(l, Not(p)))| == |Elems(l)|
  {
    FilterSplitMultiset(l, p);
    assert |multiset(Elems(Filter(l, p))) + multiset(Elems(Filter(l, Not(p))))| == |multiset(Elems(l))|;
  }

  /**
    Each element of the input lands in exactly one side of `partition`: the
    two sides together are a permutation of the input, and each keeps input order.
  */
  lemma PartitionIsPermutation<T>(l: List<T>, p: T -> bool)
    ensures multiset(Elems(Partition(l, p).passed)) + multiset(Elems(Partition(l, p).failed))
            == multiset(Elems(l))
    ensures IsSubsequence(Elems(Partition(l, p).passed), Elems(l))
    ensures IsSubsequence(Elems(Partition(l, p).failed), Elems(l))
  {
  }

  /** `flatmap` with the singleton function gives back the list. */
  lemma {:induction false} FlatMapSingleton<T>(l: List<T>)
    ensures FlatMap(l, x => Cons(x, Nil)) == l
  {
    match l
    case Nil =>
    case Cons(h, rest) =>
      FlatMapSingleton(rest);
      assert Concat(Cons(h, Nil), rest) == Cons(h, Concat(Nil, rest));
  }

  /** `flatmap` distributes over `concat`. */
  lemma {:induction false} FlatMapConcat<T>(a: List<T>, b: List<T>, f: T -> List<T>)
    ensures FlatMap(Concat(a, b), f) == Concat(FlatMap(a, f), FlatMap(b, f))
  {
    match a
    case Nil =>
    case Cons(h, rest) =>
      FlatMapConcat(rest, b, f);
      ConcatAssoc(f(h), FlatMap(rest, f), FlatMap(b, f));
  }

  /** `flatmap` is a right fold that concatenates the lists `f(x)` in order. */
  lemma {:induction false} FlatMapIsConcatFold<T>(l: List<T>, f: T -> List<T>)
    ensures FlatMap(l, f) == FoldR(l, (acc: List<T>, x: T) => Concat(f(x), acc), Nil)
  {
    match l
    case Nil =>
    case Cons(h, rest) => FlatMapIsConcatFold(rest, f);
  }

  // ------------------------------------------------------ search / predicate

  /** `all(l, p)` is `not any(l, not p)`. */
  lemma AllIsNotAnyNot<T>(l: List<T>, p: T -> bool)
    ensures All(l, p) == !Any(l, Not(p))
  {
  }

  /** `find` answers with the head of `filter`: found iff `any`, and then the first match. */
  lemma {:induction false} FindIsFirstOfFilter<T>(l: List<T>, p: T -> bool)
    ensures Find(l, p) == (if Filter(l, p).Nil? then None else Some(Filter(l, p).head))
    ensures Find(l, p).Some? <==> Any(l, p)
  {
    match l
    case Nil =>
    case Cons(h, rest) =>
      if !p(h) {
        FindIsFirstOfFilter(rest, p);
      }
  }

  /** `nth` agrees with `head` at index 0 and with `drop` further on. */
  lemma NthIsHeadOfDrop<T>(l: List<T>, i: int)
    requires 0 <= i
    ensures Nth(l, i) == (var d := Drop(l, i); if d.Nil? then None else Some(d.head))
  {
  }
}
