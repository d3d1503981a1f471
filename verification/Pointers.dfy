/** Addresses, of kernel blocks and of list nodes alike. */
module Pointers {
  type Ptr = nat

  const NULL: Ptr := 0
}
