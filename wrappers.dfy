/** The optional value used by the automata to signal a rejected transition
    and by the scanner to signal "no blocklist term ends here". */
module Wrappers {

  datatype Option<+T> = None | Some(value: T)
}
