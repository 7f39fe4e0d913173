/** Results that may be absent, and conditions counted as numbers. */
module Wrappers {

  datatype Option<+T> = None | Some(value: T)

  function One(b: bool): nat { if b then 1 else 0 }
}
