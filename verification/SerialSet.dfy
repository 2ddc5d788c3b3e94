/** The growable set in which an uninstall collects the rows to delete (darwinup/SerialSet.cpp). */
module SerialSets {

  class SerialSet<T(==,0,!new)> {
    var values: array<T>
    var count: nat

    ghost predicate Valid()
      reads this, values
    {
      && count <= values.Length
      && forall i, j :: 0 <= i < j < count ==> values[i] != values[j]
    }

    ghost function Contents(): set<T>
      reads this, values
      requires count <= values.Length
    {
      set i | 0 <= i < count :: values[i]
    }

    constructor ()
      ensures Valid() && Contents() == {} && fresh(values)
    {
      values := new T[0];
      count := 0;
    }

    /** Adds a value unless it is there; the array grows by ten when it is full. */
    method Add(value: T)
      requires Valid()
      modifies this, values
      ensures Valid() && Contents() == old(Contents()) + {value}
      ensures values == old(values) || fresh(values)
      ensures count == old(count) + if value in old(Contents()) then 0 else 1
      ensures forall i :: 0 <= i < old(count) ==> values[i] == old(values[i])
    {
      for i := 0 to count
        invariant forall j :: 0 <= j < i ==> values[j] != value
      {
        if values[i] == value {
          return;
        }
      }
      if count + 1 > values.Length {
        var larger := new T[values.Length + 10];
        for i := 0 to count
          invariant values == old(values) && count == old(count)
          invariant forall j :: 0 <= j < i ==> larger[j] == values[j]
          invariant forall j :: 0 <= j < count ==> values[j] == old(values[j])
        {
          larger[i] := values[i];
        }
        values := larger;
      }
      values[count] := value;
      count := count + 1;
      assert forall i :: 0 <= i < old(count) ==> values[i] == old(values[i]);
    }
  }
}
