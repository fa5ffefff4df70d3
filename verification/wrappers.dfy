/** An explicit "maybe": the program's null results and skipped hand-offs
    (a reply that did not decode, a step that posts or speaks nothing, a
    queue with nothing to take) are `None`; everything else is `Some`. */
module Wrappers {

  datatype Option<T> = None | Some(value: T)
}
