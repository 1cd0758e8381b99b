/**
  `Disposable` of utils/utils.py: a descriptor holding one value that is
  handed out once. Reading it through an instance returns the stored value
  and resets the cell to `None`; assigning stores a new value.
  Python's `None` is `Option.None` here.
*/
module Disposables {
  import opened Wrappers

  class Disposable<T> {
    /** The stored value; `None` once it has been read. */
    var value: Option<T>

    /** `Disposable(value=None)` */
    constructor(value: Option<T>)
      ensures this.value == value
    {
      this.value := value;
    }

    /** `__get__` through an instance: hand the value out and forget it. */
    method Get() returns (v: Option<T>)
      modifies this
      ensures v == old(value)
      ensures value == None
    {
      v := value;
      value := None;
    }

    /** `__set__`: store a new value. */
    method Set(v: Option<T>)
      modifies this
      ensures value == v
    {
      value := v;
    }
  }

  /**
    The lifecycle of a cell: the first read returns the initial value, a
    second read returns `None`, and after an assignment the next read returns
    the assigned value and the one after it `None` again.
  */
  method Lifecycle<T>(initial: T, later: T) returns (first: Option<T>, second: Option<T>, third: Option<T>, fourth: Option<T>)
    ensures first == Some(initial) && second == None
    ensures third == Some(later) && fourth == None
  {
    var cell := new Disposable(Some(initial));
    first := cell.Get();
    second := cell.Get();
    cell.Set(Some(later));
    third := cell.Get();
    fourth := cell.Get();
  }
}
