/**
  The generic persistent singly-linked list that `DEFINE_LIST(Type, TypeName)`
  generates: one immutable node type and the recursive operations over it.

  A list value is `Nil` (the shared empty list, `NULL` in C) or a `Cons` node
  holding an element and the rest of the list. Nodes are never changed after
  construction, so every operation is a pure function of its arguments.
  Most contracts speak about `Elems(l)`, the elements of `l` from the head on.
  The C function pointers and their `void*` context become Dafny closures,
  which are pure: a callback's answer depends on its argument alone.
*/
module Lists {
  import opened Wrappers

  datatype List<T> = Nil | Cons(head: T, tail: List<T>)

  /** The pair returned by `partition`. */
  datatype Partitioned<T> = Partitioned(passed: List<T>, failed: List<T>)

  /** The elements of `l`, head first. */
  function Elems<T>(l: List<T>): seq<T>
  {
    match l
    case Nil => []
    case Cons(x, rest) => [x] + Elems(rest)
  }

  /** `s` read back to front. */
  ghost function SeqReverse<T>(s: seq<T>): seq<T>
  {
    seq(|s|, i requires 0 <= i < |s| => s[|s| - 1 - i])
  }

  /** `n` limited to the range `0..len`: how many elements take/drop touch. */
  function Clamp(n: int, len: nat): nat
  {
    if n <= 0 then 0 else if n <= len then n else len
  }

  function Min(a: nat, b: nat): nat
  {
    if a <= b then a else b
  }

  /** The negation of a predicate: what `partition` puts in `failed`. */
  function Not<T>(p: T -> bool): T -> bool
  {
    x => !p(x)
  }

  /** `a` occurs in `b` in order, possibly with gaps. */
  ghost predicate IsSubsequence<T>(a: seq<T>, b: seq<T>)
    decreases |b|
  {
    || |a| == 0
    || (&& |b| > 0
        && ((a[0] == b[0] && IsSubsequence(a[1..], b[1..])) || IsSubsequence(a, b[1..])))
  }

  /** `k` is the position of the first element of `s` that satisfies `p`. */
  ghost predicate IsFirstMatch<T>(s: seq<T>, p: T -> bool, k: int)
  {
    && 0 <= k < |s|
    && p(s[k])
    && forall j :: 0 <= j < k ==> !p(s[j])
  }

  lemma SeqReverseCons<T>(x: T, s: seq<T>)
    ensures SeqReverse([x] + s) == SeqReverse(s) + [x]
  {
  }

  // ---------------------------------------------------------------- traversal

  /** `head`: the first element; the C code exits on an empty list. */
  function Head<T>(l: List<T>): (x: T)
    requires l.Cons?
    ensures x == Elems(l)[0]
  {
    l.head
  }

  /** `tail`: everything after the first element; the C code exits on an empty list. */
  function Tail<T>(l: List<T>): (rest: List<T>)
    requires l.Cons?
    ensures Elems(rest) == Elems(l)[1..]
    ensures |Elems(rest)| == |Elems(l)| - 1
  {
    l.tail
  }

  /** `is_empty`: the pointer is `NULL`. */
  function IsEmpty<T>(l: List<T>): (b: bool)
    ensures b <==> |Elems(l)| == 0
  {
    l.Nil?
  }

  /** `length`: walks the chain counting nodes. */
  method Length<T>(l: List<T>) returns (count: int)
    ensures count == |Elems(l)|
  {
    count := 0;
    var cur := l;
    while cur.Cons?
      invariant count + |Elems(cur)| == |Elems(l)|
      decreases cur
    {
      count := count + 1;
      cur := cur.tail;
    }
  }

  // ------------------------------------------------------------- construction

  /** `cons`: a new node in front of `rest`, which is shared, not copied. */
  function Prepend<T>(x: T, rest: List<T>): (l: List<T>)
    ensures |Elems(l)| == 1 + |Elems(rest)|
    ensures Head(l) == x && Tail(l) == rest
  {
    Cons(x, rest)
  }

  /**
    The variadic `_list(count, ...)`: each of the first `count` arguments is
    consed onto the list built so far, so the LAST argument ends up at the
    head. Reading more arguments than were passed is undefined in C, hence
    the precondition; a count of zero or less gives the empty list.
  */
  method ListOf<T>(count: int, args: seq<T>) returns (l: List<T>)
    requires count <= |args|
    ensures Elems(l) == SeqReverse(args[..Clamp(count, |args|)])
    ensures |Elems(l)| == Clamp(count, |args|)
    ensures count > 0 ==> l.Cons? && l.head == args[count - 1]
  {
    l := Nil;
    var i := 0;
    while i < count
      invariant 0 <= i <= Clamp(count, |args|)
      invariant Elems(l) == SeqReverse(args[..i])
    {
      SeqReverseCons(args[i], args[..i]);
      assert args[..i + 1] == args[..i] + [args[i]];
      l := Cons(args[i], l);
      i := i + 1;
    }
    if count > 0 {
      assert Elems(l)[0] == args[count - 1];
    }
  }

  // ------------------------------------------------------------ combination

  /** `append`: rebuilds the whole chain with `x` after the last element. */
  function Append<T>(l: List<T>, x: T): (r: List<T>)
    ensures Elems(r) == Elems(l) + [x]
  {
    match l
    case Nil => Cons(x, Nil)
    case Cons(h, rest) => Cons(h, Append(rest, x))
  }

  /** `concat`: copies the nodes of `a` and ends them with `b` itself. */
  function Concat<T>(a: List<T>, b: List<T>): (r: List<T>)
    ensures Elems(r) == Elems(a) + Elems(b)
  {
    match a
    case Nil => b
    case Cons(h, rest) => Cons(h, Concat(rest, b))
  }

  /** `reverse_acc`: moves the nodes of `l` one by one onto `acc`. */
  function ReverseAcc<T>(l: List<T>, acc: List<T>): (r: List<T>)
    ensures Elems(r) == SeqReverse(Elems(l)) + Elems(acc)
  {
    match l
    case Nil => acc
    case Cons(h, rest) =>
      var r := ReverseAcc(rest, Cons(h, acc));
      SeqReverseCons(h, Elems(rest));
      assert Elems(r) == SeqReverse(Elems(rest)) + ([h] + Elems(acc));
      r
  }

  /** `reverse`: `reverse_acc` started from the empty list. */
  function Reverse<T>(l: List<T>): (r: List<T>)
    ensures |Elems(r)| == |Elems(l)|
    ensures forall i :: 0 <= i < |Elems(l)| ==> Elems(r)[i] == Elems(l)[|Elems(l)| - 1 - i]
  {
    var r := ReverseAcc(l, Nil);
    assert Elems(r) == SeqReverse(Elems(l));
    r
  }

  /** `zipWith`: combines elements pairwise and stops at the end of the shorter list. */
  function ZipWith<T>(a: List<T>, b: List<T>, f: (T, T) -> T): (r: List<T>)
    ensures |Elems(r)| == Min(|Elems(a)|, |Elems(b)|)
    ensures forall i :: 0 <= i < |Elems(r)| ==> Elems(r)[i] == f(Elems(a)[i], Elems(b)[i])
  {
    if a.Nil? || b.Nil? then Nil
    else
      var rest := ZipWith(a.tail, b.tail, f);
      var r := Cons(f(a.head, b.head), rest);
      assert forall i :: 1 <= i < |Elems(r)| ==> Elems(r)[i] == Elems(rest)[i - 1];
      r
  }

  // --------------------------------------------------------- transformation

  /** `map`: applies `f` to every element, keeping order and length. */
  function Map<T>(l: List<T>, f: T -> T): (r: List<T>)
    ensures |Elems(r)| == |Elems(l)|
    ensures forall i :: 0 <= i < |Elems(l)| ==> Elems(r)[i] == f(Elems(l)[i])
  {
    match l
    case Nil => Nil
    case Cons(h, rest) =>
      var r := Cons(f(h), Map(rest, f));
      assert forall i :: 1 <= i < |Elems(r)| ==> Elems(r)[i] == Elems(Map(rest, f))[i - 1];
      r
  }

  /** `filter`: keeps, in order, exactly the elements that satisfy `p`. */
  function Filter<T>(l: List<T>, p: T -> bool): (r: List<T>)
    ensures forall i :: 0 <= i < |Elems(r)| ==> p(Elems(r)[i])
    ensures multiset(Elems(r)) <= multiset(Elems(l))
    ensures forall x :: x in Elems(l) ==> multiset(Elems(r))[x] == if p(x) then multiset(Elems(l))[x] else 0
    ensures IsSubsequence(Elems(r), Elems(l))
  {
    match l
    case Nil => Nil
    case Cons(h, rest) =>
      var r := Filter(rest, p);
      assert Elems(l)[1..] == Elems(rest);
      if p(h) then
        assert Elems(Cons(h, r))[1..] == Elems(r);
        Cons(h, r)
      else
        r
  }

  /** `flatmap`: the lists `f(x)`, in order, joined with `concat`. */
  function FlatMap<T>(l: List<T>, f: T -> List<T>): List<T>
  {
    match l
    case Nil => Nil
    case Cons(h, rest) => Concat(f(h), FlatMap(rest, f))
  }

  // ---------------------------------------------------------------- folding

  /** `foldl`: `f(... f(f(acc, x0), x1) ..., xn)`. */
  function FoldL<T, A>(l: List<T>, f: (A, T) -> A, acc: A): A
  {
    match l
    case Nil => acc
    case Cons(h, rest) => FoldL(rest, f, f(acc, h))
  }

  /**
    `foldr`: folds the tail first and combines the head last,
    `f(f(... f(acc, xn) ..., x1), x0)`; the C code passes the accumulator
    first here too.
  */
  function FoldR<T, A>(l: List<T>, f: (A, T) -> A, acc: A): A
  {
    match l
    case Nil => acc
    case Cons(h, rest) => f(FoldR(rest, f, acc), h)
  }

  // ---------------------------------------------------------------- slicing

  /** `take`: the first `n` elements; `n <= 0` gives the empty list. */
  function Take<T>(l: List<T>, n: int): (r: List<T>)
    ensures Elems(r) == Elems(l)[..Clamp(n, |Elems(l)|)]
  {
    if n <= 0 || l.Nil? then Nil
    else
      var r := Cons(l.head, Take(l.tail, n - 1));
      assert Elems(l) == [l.head] + Elems(l.tail);
      r
  }

  /** `drop`: the list after the first `n` nodes; `n <= 0` gives `l` itself. */
  function Drop<T>(l: List<T>, n: int): (r: List<T>)
    ensures Elems(r) == Elems(l)[Clamp(n, |Elems(l)|)..]
    ensures n <= 0 ==> r == l
  {
    if n <= 0 || l.Nil? then l
    else
      assert Elems(l) == [l.head] + Elems(l.tail);
      Drop(l.tail, n - 1)
  }

  /** `takeWhile`: the longest prefix whose elements all satisfy `p`. */
  function TakeWhile<T>(l: List<T>, p: T -> bool): (r: List<T>)
    ensures forall i :: 0 <= i < |Elems(r)| ==> p(Elems(r)[i])
    ensures Elems(r) <= Elems(l)
    ensures |Elems(r)| < |Elems(l)| ==> !p(Elems(l)[|Elems(r)|])
  {
    if l.Nil? || !p(l.head) then Nil
    else
      var rest := TakeWhile(l.tail, p);
      assert Elems(l) == [l.head] + Elems(l.tail);
      assert Elems(Cons(l.head, rest)) == [l.head] + Elems(rest);
      Cons(l.head, rest)
  }

  /**
    `dropWhile`: what is left after that prefix, shared with `l`. Every
    element it skips satisfies `p`, and it stops at the first one that does not.
  */
  function DropWhile<T>(l: List<T>, p: T -> bool): (r: List<T>)
    ensures r.Nil? || !p(r.head)
    ensures |Elems(r)| <= |Elems(l)|
    ensures Elems(r) == Elems(l)[|Elems(l)| - |Elems(r)|..]
    ensures forall i :: 0 <= i < |Elems(l)| - |Elems(r)| ==> p(Elems(l)[i])
  {
    if l.Nil? then Nil
    else if p(l.head) then
      var r := DropWhile(l.tail, p);
      assert Elems(l) == [l.head] + Elems(l.tail);
      assert forall i :: 1 <= i < |Elems(l)| ==> Elems(l)[i] == Elems(l.tail)[i - 1];
      r
    else l
  }

  // ------------------------------------------------------ search / predicate

  /** `find`: the first element satisfying `p`, or `None`. */
  function Find<T>(l: List<T>, p: T -> bool): (r: Option<T>)
    ensures r.Some? <==> exists i :: 0 <= i < |Elems(l)| && p(Elems(l)[i])
    ensures r.Some? ==> exists k :: IsFirstMatch(Elems(l), p, k) && Elems(l)[k] == r.value
  {
    match l
    case Nil => None
    case Cons(h, rest) =>
      assert forall i :: 1 <= i < |Elems(l)| ==> Elems(l)[i] == Elems(rest)[i - 1];
      if p(h) then
        assert IsFirstMatch(Elems(l), p, 0);
        Some(h)
      else
        assert forall k :: IsFirstMatch(Elems(rest), p, k) ==> IsFirstMatch(Elems(l), p, k + 1);
        Find(rest, p)
  }

  /** `any`: some element satisfies `p`; false on the empty list. */
  function Any<T>(l: List<T>, p: T -> bool): (b: bool)
    ensures b <==> exists i :: 0 <= i < |Elems(l)| && p(Elems(l)[i])
  {
    match l
    case Nil => false
    case Cons(h, rest) =>
      assert forall i :: 1 <= i < |Elems(l)| ==> Elems(l)[i] == Elems(rest)[i - 1];
      assert forall j :: 0 <= j < |Elems(rest)| ==> Elems(rest)[j] == Elems(l)[j + 1];
      assert Elems(l)[0] == h;
      if p(h) then true else Any(rest, p)
  }

  /** `all`: every element satisfies `p`; true on the empty list. */
  function All<T>(l: List<T>, p: T -> bool): (b: bool)
    ensures b <==> forall i :: 0 <= i < |Elems(l)| ==> p(Elems(l)[i])
  {
    match l
    case Nil => true
    case Cons(h, rest) =>
      assert forall i :: 1 <= i < |Elems(l)| ==> Elems(l)[i] == Elems(rest)[i - 1];
      assert forall j :: 0 <= j < |Elems(rest)| ==> Elems(rest)[j] == Elems(l)[j + 1];
      assert Elems(l)[0] == h;
      if !p(h) then false else All(rest, p)
  }

  /** `nth`: the element at a 0-based index; a negative or too large index is `None`. */
  function Nth<T>(l: List<T>, index: int): (r: Option<T>)
    ensures r.Some? <==> 0 <= index < |Elems(l)|
    ensures r.Some? ==> r.value == Elems(l)[index]
  {
    if l.Nil? || index < 0 then None
    else if index == 0 then Some(l.head)
    else
      assert Elems(l) == [l.head] + Elems(l.tail);
      Nth(l.tail, index - 1)
  }

  /**
    `partition`: splits the tail first, then puts the head in front of the
    side it belongs to.
  */
  function Partition<T>(l: List<T>, p: T -> bool): (r: Partitioned<T>)
    ensures r.passed == Filter(l, p)
    ensures r.failed == Filter(l, Not(p))
  {
    match l
    case Nil => Partitioned(Nil, Nil)
    case Cons(h, rest) =>
      var sub := Partition(rest, p);
      if p(h) then Partitioned(Cons(h, sub.passed), sub.failed)
      else Partitioned(sub.passed, Cons(h, sub.failed))
  }
}
