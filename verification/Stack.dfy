/** The growing list behind the path of Insert and Delete and behind the unused ids of the in-memory storage. */
module Stacks {
  class Stack<T> {
    var values: seq<T>

    constructor ()
      ensures values == []
    {
      values := [];
    }

    method Push(value: T)
      modifies this
      ensures values == old(values) + [value]
    {
      values := values + [value];
    }

    method Pop() returns (value: T)
      requires values != []
      modifies this
      ensures value == old(values)[|old(values)| - 1]
      ensures values == old(values)[..|old(values)| - 1]
    {
      var index := |values| - 1;
      value := values[index];
      values := values[..index];
    }

    function Count(): nat
      reads this
    {
      |values|
    }

    predicate Empty()
      reads this
    {
      |values| == 0
    }
  }
}
