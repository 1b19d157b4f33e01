/**
  The trading instruction that the list engine is instantiated with: a tagged
  union of an order, a cancel and a cancel-replace. A list of instructions is
  the generic `Lists.List` at this element type; the `Instruction_*`
  functions are the generic operations at that type.
*/
module Instructions {
  import Lists

  /** A C `int`. */
  newtype Int32 = x: int | -0x8000_0000 <= x < 0x8000_0000

  /** A C `float`, carried as its bit pattern: nothing in the list engine computes with prices. */
  type Float32 = bv32

  datatype Order = Order(id: Int32, price: Float32, size: Int32)

  datatype Cancel = Cancel(xid: Int32)

  datatype CancelReplace = CancelReplace(xrId: Int32, newPrice: Float32, newSize: Int32)

  /** The enum tag selects which member of the union is live. */
  datatype Instruction =
    | OrderInstruction(order: Order)
    | CancelInstruction(cancel: Cancel)
    | CancelReplaceInstruction(cancelReplace: CancelReplace)

  /** `InstructionList`: the engine instantiated at `Instruction`. */
  type InstructionList = Lists.List<Instruction>
}
