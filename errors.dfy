/** The exceptions the contact book raises, and the `input_error` decorator
    (task.py:136-148) that turns them into the reply a command prints. */
module Errors {
  import opened Wrappers
  import opened Text

  /** The Python exception classes that matter here; a ValueError or an
      OverflowError carries the text `str(e)` would give. */
  datatype Exception =
    | KeyError
    | ValueError(message: string)
    | IndexError
    | AttributeError
    | OverflowError(message: string)

  /** What a decorated handler does: print a message, or let an exception the
      decorator does not catch escape to the command loop. */
  datatype Reply = Said(text: string) | Raised(exception: Exception)

  const ContactNotFound := "Contact not found."
  const NotEnoughArguments := "Not enough arguments."

  /** `input_error`: KeyError and AttributeError read "Contact not found.",
      ValueError prints its own message, IndexError reads "Not enough
      arguments."; any other exception (an OverflowError) propagates. */
  function InputError(outcome: Result<string, Exception>): (reply: Reply)
    ensures reply.Raised? <==> outcome.Failure? && outcome.error.OverflowError?
    ensures reply.Raised? ==> reply.exception == outcome.error
    ensures outcome.Success? ==> reply == Said(outcome.value)
    ensures outcome.Failure? && outcome.error.ValueError? ==> reply == Said(outcome.error.message)
    ensures outcome.Failure? && (outcome.error.KeyError? || outcome.error.AttributeError?) ==>
              reply == Said(ContactNotFound)
    ensures outcome.Failure? && outcome.error.IndexError? ==> reply == Said(NotEnoughArguments)
  {
    match outcome
    case Success(message) => Said(message)
    case Failure(KeyError) => Said(ContactNotFound)
    case Failure(ValueError(message)) => Said(message)
    case Failure(IndexError) => Said(NotEnoughArguments)
    case Failure(AttributeError) => Said(ContactNotFound)
    case Failure(e) => Raised(e)
  }

  /** The ValueError Python raises for `a, b, *_ = args` when `args` has
      fewer than `expected` items. */
  function UnpackError(expected: nat, got: nat): (e: Exception)
    requires got < expected
    ensures e.ValueError?
  {
    ValueError("not enough values to unpack (expected at least " + NatToString(expected)
               + ", got " + NatToString(got) + ")")
  }
}
