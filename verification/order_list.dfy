/**
  The hand-written instruction list that preceded the generic engine. Its
  `map` and `filter` take the function first, and its operations are written
  out by hand rather than generated; each one is shown here to compute the
  same list as the generic operation of `Lists`.
*/
module OrderList {
  import Lists
  import opened Instructions

  /** `append(lst, value)`: rebuilds the chain with `value` at the end. */
  function Append(lst: InstructionList, value: Instruction): (r: InstructionList)
    ensures r == Lists.Append(lst, value)
  {
    match lst
    case Nil => Lists.Cons(value, Lists.Nil)
    case Cons(h, rest) => Lists.Cons(h, Append(rest, value))
  }

  /** `map(func, lst)`: the generic `map` with its arguments swapped. */
  function Map(func: Instruction -> Instruction, lst: InstructionList): (r: InstructionList)
    ensures r == Lists.Map(lst, func)
  {
    match lst
    case Nil => Lists.Nil
    case Cons(h, rest) => Lists.Cons(func(h), Map(func, rest))
  }

  /** `filter(func, lst, ctx)`: the context is captured by the closure `func`. */
  function Filter(func: Instruction -> bool, lst: InstructionList): (r: InstructionList)
    ensures r == Lists.Filter(lst, func)
  {
    match lst
    case Nil => Lists.Nil
    case Cons(h, rest) =>
      if func(h) then Lists.Cons(h, Filter(func, rest)) else Filter(func, rest)
  }

  /** `reverse_acc(lst, acc)`. */
  function ReverseAcc(lst: InstructionList, acc: InstructionList): (r: InstructionList)
    ensures r == Lists.ReverseAcc(lst, acc)
  {
    match lst
    case Nil => acc
    case Cons(h, rest) => ReverseAcc(rest, Lists.Cons(h, acc))
  }

  /** `reverse(lst)`: same length, element `i` is element `length - 1 - i` of `lst`. */
  function Reverse(lst: InstructionList): (r: InstructionList)
    ensures r == Lists.Reverse(lst)
    ensures |Lists.Elems(r)| == |Lists.Elems(lst)|
  {
    ReverseAcc(lst, Lists.Nil)
  }

  /**
    `instruction_id`: the identifier carried by whichever variant the tag
    selects. A projection with no contract of its own; the datatype has
    exactly the three variants the switch covers.
  */
  function InstructionId(instruction: Instruction): Int32
  {
    match instruction
    case OrderInstruction(o) => o.id
    case CancelInstruction(c) => c.xid
    case CancelReplaceInstruction(cr) => cr.xrId
  }
}
