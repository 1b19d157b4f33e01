# Persistent singly-linked list engine, modelled in Dafny

This project models the generic immutable list that the C macro
`DEFINE_LIST(Type, TypeName)` generates. A list is either the shared empty
list (`NULL`) or a node holding one element and a pointer to the rest.
Nodes are never mutated, so any two lists may share a tail. On top of that
representation the macro defines these operations:

- construction: `cons` and the variadic `_list`;
- traversal: `head`, `tail`, `is_empty`, `length`;
- transformation: `map`, `filter`, `flatmap`;
- folding: `foldl`, `foldr`;
- slicing: `take`, `drop`, `takeWhile`, `dropWhile`;
- search: `find`, `any`, `all`, `nth`, `partition`;
- combination: `append`, `concat`, `reverse_acc`/`reverse`, `zipWith`.

The project has these parts:

- `lists.dfy` (module `Lists`): the datatype `List<T> = Nil | Cons(head, tail)` and every operation, with the C code's branches.
  - `length` and `_list` are loops in C, so `Lists.Length` and `Lists.ListOf` are methods with `while` loops. Every other operation is a function (most of them recursive) over the datatype.
  - Most contracts are stated over `Elems(l)`, the sequence of elements from the head on.
  - `Lists.Partition`'s contract instead equates its two sides with `Lists.Filter`.
  - `FoldL`, `FoldR` and `FlatMap` have no contract of their own (see below).
- `list_laws.dfy` (module `ListLaws`): laws that relate the operations, each proved for all inputs. Examples: `reverse` is an involution, `take`/`drop` split a list, `foldr` is `foldl` over the reversed list, and `partition` is two filters whose outputs together are a permutation of the input.
- `instructions.dfy` (module `Instructions`): the `Instruction` tagged union (order, cancel, cancel-replace) and `InstructionList`, the engine at that element type. `instruction.c` is `DEFINE_LIST(Instruction, Instruction)` expanded line for line. So each `Instruction_X` there is modelled by the corresponding `Lists` member at `T = Instruction`, and the laws apply to it unchanged. The names match up to capitalisation except for three: `Instruction_cons` is `Lists.Prepend`, `Instruction_list` is `Lists.ListOf` and `Instruction_is_empty` is `Lists.IsEmpty`.
- `order_list.dfy` (module `OrderList`): the older hand-written list in `order.c`. Its `map` and `filter` take the function first. `append`, `map`, `filter`, `reverse_acc` and `reverse` are modelled with their own bodies (recursive except `reverse`, which calls `reverse_acc` as order.c does), and each is proved to compute the same list as the generic operation. `instruction_id` is modelled here as well.
- `wrappers.dfy` (module `Wrappers`): `Option`, the result type of `find` and `nth`.

The C interface maps onto the model as follows:

- A C function pointer and its `void*` context become one Dafny closure. That closure is a pure function of its argument (see "## Left out").
- The `void*` fold accumulator becomes a type parameter `A`.
- An out-parameter plus a `bool` return (`find`, `nth`) becomes an `Option`.
- C `int` counts and indices become unbounded `int`, so negative values keep the C behaviour.

## Model

| member | source | states |
|---|---|---|
| Lists.Prepend | list.h:92-103 | `cons(x, rest)` is one longer than `rest`; its head is `x` and its tail is `rest` itself |
| Lists.ListOf | list.h:105-116 | `_list(count, a0..)` conses the first `count` arguments onto the front in turn. The result is those arguments in REVERSE order: the last one is at the head, and the length is `count` (0 when `count <= 0`) |
| Lists.Head | list.h:118-125 | on a non-empty list, returns the first element |
| Lists.Tail | list.h:127-134 | on a non-empty list, returns the remaining elements, one fewer |
| Lists.IsEmpty | list.h:136-139 | true exactly when the list has length 0 |
| Lists.Length | list.h:141-149 | the counting loop returns the number of elements |
| Lists.Append | list.h:151-157 | the result holds the elements of the list followed by `x`: length +1, last element `x`, prefix unchanged |
| Lists.Map | list.h:162-168 | same length; element i of the result is `f` applied to element i of the input |
| Lists.Filter | list.h:173-182 | every kept element satisfies `p`. Each element occurs as often as in the input if it satisfies `p` and not at all otherwise. The kept elements are a subsequence of the input, in input order |
| Lists.ReverseAcc | list.h:184-190 | the result is the elements of the list back to front, followed by `acc` |
| Lists.Reverse | list.h:192-194 | same length; element i is element `length - 1 - i` of the input |
| Lists.Take | list.h:215-221 | the first `clamp(n, 0, length)` elements: empty for `n <= 0`, the whole list for `n >= length` |
| Lists.Drop | list.h:223-229 | the elements after the first `clamp(n, 0, length)`; for `n <= 0` it is the input list itself |
| Lists.Concat | list.h:231-237 | the elements of `a` followed by those of `b` (length is the sum) |
| Lists.Find | list.h:252-261 | found iff some element satisfies `p`; the value found is the element at the first position satisfying `p`; the empty list gives "not found" |
| Lists.Any | list.h:263-272 | true iff some element satisfies `p` (false on the empty list) |
| Lists.All | list.h:274-283 | true iff every element satisfies `p` (true on the empty list) |
| Lists.ZipWith | instruction.c:241-250 | length is the smaller of the two lengths; element i is `f(a[i], b[i])` |
| Lists.Nth | instruction.c:252-262 | found iff `0 <= index < length`, and then it is element `index`; a negative index or an empty list is "not found", never a failure |
| Lists.Partition | list.h:308-325 | `passed` is `filter(l, p)` and `failed` is `filter(l, not p)` |
| Lists.TakeWhile | list.h:327-333 | a prefix of the input whose elements all satisfy `p`, and the longest one: the next input element, if any, fails `p` |
| Lists.DropWhile | list.h:335-344 | a suffix of the input that is empty or starts with an element failing `p`, and every element it skips satisfies `p` |
| ListLaws.ElemsInjective | list.h:84-87 | two node chains with the same elements in the same order are the same list value |
| ListLaws.LengthLaws | list.h:136-149 | `length(cons(x, l)) == 1 + length(l)`; `is_empty(l)` iff `length(l) == 0`; a cons is never empty |
| ListLaws.AppendIsConcat | list.h:151-157 | `append(l, x) == concat(l, [x])` |
| ListLaws.ConcatNilRight | instruction.c:187-193 | `concat(a, empty) == a` |
| ListLaws.ConcatAssoc | list.h:231-237 | `concat` is associative |
| ListLaws.SliceConcat | instruction.c:171-193 | `drop(concat(a, b), length(a)) == b` and `take(concat(a, b), length(a)) == a` |
| ListLaws.ReverseAccIsConcat | list.h:184-194 | `reverse_acc(l, acc) == concat(reverse(l), acc)` |
| ListLaws.ReverseInvolutive | list.h:192-194 | `reverse(reverse(l)) == l` |
| ListLaws.ReverseConcat | list.h:184-194 | `reverse(concat(a, b)) == concat(reverse(b), reverse(a))` |
| ListLaws.FoldLConcat | list.h:199-205 | `foldl` over `concat(a, b)` folds `a` first and continues over `b` with that accumulator |
| ListLaws.FoldRConcat | list.h:207-213 | `foldr` over `concat(a, b)` folds `b` first and then folds `a` from that accumulator |
| ListLaws.FoldRIsFoldLOfReverse | list.h:199-213 | `foldr(l, f, z) == foldl(reverse(l), f, z)`: both call `f(acc, elem)`, and `foldr` meets the elements last-first |
| ListLaws.TakeDropSplit | list.h:215-229 | `concat(take(l, n), drop(l, n)) == l` for every integer `n` |
| ListLaws.TakeWhileDropWhileSplit | instruction.c:283-300 | `concat(takeWhile(l, p), dropWhile(l, p)) == l` |
| ListLaws.DropWhileIsDrop | list.h:327-344 | `dropWhile` removes exactly as many elements as `takeWhile` keeps |
| ListLaws.MapIdentity | list.h:162-168 | mapping the identity gives back the same list |
| ListLaws.MapFusion | list.h:162-168 | `map(map(l, f), g) == map(l, g . f)` |
| ListLaws.FilterKeepsAllIff | list.h:173-182 | `filter(l, p) == l` iff every element satisfies `p` (an always-true predicate gives back an equal list). It carries over to order.c's `filter` through `OrderList.Filter` |
| ListLaws.FilterLengthBound | list.h:173-182 | `filter` never lengthens a list |
| ListLaws.FilterSplitMultiset | list.h:173-182 | `filter p` and `filter (not p)` together hold every input element exactly as often as the input does |
| ListLaws.FilterComplementLength | list.h:173-182 | `length(filter(l, p)) + length(filter(l, not p)) == length(l)` |
| ListLaws.PartitionIsPermutation | instruction.c:264-281 | `passed` and `failed` together are a permutation of the input, and each is a subsequence of it (input order kept) |
| ListLaws.FlatMapSingleton | instruction.c:195-203 | `flatmap(l, x => [x]) == l` |
| ListLaws.FlatMapConcat | list.h:239-247 | `flatmap(concat(a, b), f) == concat(flatmap(a, f), flatmap(b, f))` |
| ListLaws.FlatMapIsConcatFold | list.h:239-247 | `flatmap(l, f)` is the right fold that concatenates `f(x)` for each `x` in order, starting from the empty list |
| ListLaws.AllIsNotAnyNot | instruction.c:219-239 | `all(l, p) == !any(l, not p)` |
| ListLaws.FindIsFirstOfFilter | instruction.c:205-217 | `find(l, p)` returns the head of `filter(l, p)`, or "not found" when that is empty; it succeeds iff `any(l, p)` |
| ListLaws.NthIsHeadOfDrop | list.h:296-306 | for `index >= 0`, `nth(l, index)` is the head of `drop(l, index)`, or "not found" when that is empty |
| OrderList.Append | order.c:91-97 | the hand-written `append` builds the same list as the generic `append` |
| OrderList.Map | order.c:98-106 | the function-first `map(func, lst)` equals the generic `map(lst, func)` |
| OrderList.Filter | order.c:107-118 | the function-first `filter(func, lst, ctx)` equals the generic `filter(lst, func)` |
| OrderList.ReverseAcc | order.c:120-126 | the hand-written `reverse_acc` equals the generic one |
| OrderList.Reverse | order.c:128-130 | the hand-written `reverse` equals the generic one and preserves length |

`FoldL`, `FoldR` and `FlatMap` (list.h:199-213, list.h:242-247) carry no contract of their own. Their behaviour is stated by the fold and flatmap laws above.

`OrderList.InstructionId` (order.c:132-140) is also a contract-free projection. It returns `order.id` for ORDER, `cancel.xid` for CANCEL and `cancel_replace.xr_id` for CANCEL_REPLACE. The datatype has exactly these three variants.

In `order.c`, several functions are the same code as in `list.h`, so the `Lists` members model them:

- `list(value, rest)` is `cons`, modelled by `Lists.Prepend`.
- `head`, `tail`, `is_empty` and `length` (order.c:58-89) are modelled by `Lists.Head`, `Lists.Tail`, `Lists.IsEmpty` and `Lists.Length`.

Three behaviours of the code that a reader might not expect, all modelled as written:

- `_list` conses each argument onto the list built so far (list.h:110-113), so its last argument ends up at the head: `_list(3, 7, 8, 9)` is `[9, 8, 7]`.
- `foldr` calls `func(acc, elem)`, with the accumulator first as in `foldl` (list.h:212). So `foldr` over `[1, 2, 3]` with subtraction from `0` gives `((0 - 3) - 2) - 1 = -6`.
- `take` and `drop` accept any `int` (list.h:215-229): a count of zero or less takes nothing or drops nothing, and a count past the end takes or drops the whole list.

## Left out

- Allocation failure: `cons` never fails here. The C code's `malloc` check with `exit(1)` (list.h:95-99, order.c:48-52) is not modelled.
- Empty-list aborts: `head` and `tail` print and `exit(1)` on `NULL` (list.h:120-123, list.h:129-132). In the model this is the precondition `l.Cons?` instead of a process exit.
- `void*` plumbing: the fold accumulator, the predicate context and the `va_list` mechanics of `_list` are left out. They are replaced by a type parameter, closures and a `seq` argument.
- Pointer identity and structural sharing cannot be observed on value datatypes. The model states only what is visible: `drop` with `n <= 0` returns its argument, and `dropWhile` returns a suffix of its input.
- Machine integers: the one place C `int` arithmetic can overflow is `length`'s `count++` on a list longer than `INT_MAX` (list.h:145, instruction.c:101, order.c:85), and this is not modelled: `Lists.Length` returns the unbounded length. The model's `int` parameters (`n`, `index`, `count`) also accept values a C `int` cannot hold. Recursion depth and stack growth are not modelled either.
- Floats: `price` and `new_price` are carried as 32-bit patterns, with no arithmetic.
- Instructions whose enum tag lies outside ORDER, CANCEL and CANCEL_REPLACE cannot be represented in the datatype. So the `return 0` fallback of `instruction_id` (order.c:139) has no model.
- Callbacks are pure functions of their argument. The one predicate in the repository, `has_id` in main.c, only reads its context. In C, every predicate receives a `void* ctx` that it may mutate. Effects through `ctx` and the order of callback calls are not modelled. These are the C call orders:
  - `partition` recurses first and calls `pred` on the way back, so from the last element to the first (list.h:316-317);
  - `filter` calls it from the first element to the last (list.h:178);
  - `find`, `any`, `all` and `takeWhile` stop calling at the first decisive element;
  - `dropWhile` also stops calling at the first element that fails `pred` (list.h:340-343);
  - `zipWith` calls `func` from the first pair to the last (list.h:292-293);
  - `map`'s and `flatmap`'s orders depend on C's unspecified argument evaluation order (list.h:167, list.h:246).
  So `Lists.Partition`'s equality with two filters, and `ListLaws.PartitionIsPermutation`, hold for pure predicates only. A predicate that changes state through `ctx` could give `partition` and `filter` different results.
- `print_list` (order.c:143-152) is console output.
- main.c is demo glue that prints. It is not part of this model.
