/** Requests for memory, any of which may be refused. */
module Allocation {

  /** How many of the first n requests are refused. */
  function Refusals(grants: nat -> bool, n: nat): nat
  {
    if n == 0 then 0 else Refusals(grants, n - 1) + if grants(n - 1) then 0 else 1
  }

  /** malloc and realloc: any script of requests that are granted or refused. */
  class Allocator {
    const grants: nat -> bool
    var asked: nat
    ghost var refused: nat

    ghost predicate Valid() reads this { refused == Refusals(grants, asked) }

    constructor (grants: nat -> bool)
      ensures Valid() && this.grants == grants && asked == 0
    {
      this.grants, asked, refused := grants, 0, 0;
    }

    method Available() returns (ok: bool)
      requires Valid()
      modifies this
      ensures Valid() && ok == grants(old(asked)) && asked == old(asked) + 1
      ensures refused == old(refused) + if ok then 0 else 1
    {
      ok := grants(asked);
      asked := asked + 1;
      refused := refused + if ok then 0 else 1;
    }
  }
}
