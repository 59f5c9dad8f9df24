/**
  The exceptions the compiler raises, by class. The model does not carry
  messages: callers of the compiler only ever tell these apart by class.
*/
module Errors {

  datatype Exception =
    | ValueError
    | IndexError
    | KeyError
    | TypeError
    /** An undefined name in the source, such as a misspelled exception class. */
    | NameError
    /** An attribute read before the object has it, such as `self.context` in a constructor. */
    | AttributeError
    | NotImplementedError
    | MOAReductionError
    | MOAShapeError
}
