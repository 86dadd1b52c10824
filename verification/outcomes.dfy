/** Failure-carrying values shared by the editor and the profession table. */
module Outcomes {

  /** An optional value; the source's `null`. */
  datatype Option<+T> = None | Some(value: T)

  /** The value of a call that either returns or throws. */
  datatype Result<+T, +E> = Ok(value: T) | Err(error: E)

  /** The exceptions the instruction editor can raise.
      Each constructor names the situation, not the .NET exception class:
      - NoCursor: `CurrentIndex` read while the index stack is empty;
      - EmptyList: `LastIndex` read while the instruction list is empty;
      - OutOfRange: the editor's own bounds checks (`Advance`, `GoTo`, `Remove`);
      - PatternNotFound, LabelNotFound: a search found nothing;
      - BadIndex: a list index or insertion point outside the list;
      - BadRange: a copy or removal range outside the list (or a negative count);
      - EmptyStack: `Pop` on an empty index stack;
      - EmptyBlock: `instructions[0]` of an empty block;
      - NoBuffer: the legacy buffer read before anything was copied into it;
      - InvalidCast, DuplicateKey: building the table of locals failed. */
  datatype Error =
    | NoCursor
    | EmptyList
    | OutOfRange
    | PatternNotFound
    | LabelNotFound
    | BadIndex
    | BadRange
    | EmptyStack
    | EmptyBlock
    | NoBuffer
    | InvalidCast
    | DuplicateKey
}
