/** Failure-compatible result type shared by every stage of the decode
    pipeline. Each `Error` case names one way decoding fails. */
module Results {

  datatype Option<+T> = None | Some(value: T)

  /** The exceptions the decode pipeline can raise; none of them is caught. */
  datatype Error =
    | EmptyTokenList            // `words_in[-1]` on an empty list (IndexError)
    | NotAnInteger              // a token is neither decimal nor hexadecimal
    | BadPacketType(code: nat)  // `PacketType(code)` for a code outside 0..3
    | NoOpcode                  // no opcode matches at the decode cursor
    | UnboundTimestamp          // a Repeat frame read `new_ts` before it was set
    | LabelNotListed            // `event_labels.index(label)` found nothing
    | MissingTimestamp          // `d[-1]['ts']` read a metadata record

  datatype Result<+T> = Ok(value: T) | Err(error: Error) {

    predicate IsFailure() {
      Err?
    }

    function PropagateFailure<U>(): Result<U>
      requires Err?
    {
      Err(error)
    }

    function Extract(): T
      requires Ok?
    {
      value
    }
  }
}
