/**
  The growable array of src/libserveez/array.c.
*/
module Arrays {
  import opened Options

  // ----- what growing costs -----

  // `copied` counts the elements that reallocations moved, `adds` the additions so far.
  datatype Growth = Growth(size: nat, capacity: nat, copied: nat, adds: nat)

  datatype Change = Add | Del(index: nat)

  function Created(capacity: nat): Growth {
    Growth(0, if capacity == 0 then 4 else capacity, 0, 0)
  }

  function Changed(g: Growth, c: Change): Growth {
    match c
    case Add =>
      if g.size + 1 > g.capacity
      then Growth(g.size + 1, g.capacity * 3 / 2 + 1, g.copied + g.size, g.adds + 1)
      else g.(size := g.size + 1, adds := g.adds + 1)
    case Del(index) => if index < g.size then g.(size := g.size - 1) else g
  }

  function Run(g: Growth, changes: seq<Change>): Growth
  {
    if changes == [] then g else Changed(Run(g, changes[..|changes| - 1]), changes[|changes| - 1])
  }

  // Every element copied is paid for by half a place of capacity, every place by two thirds of
  // an addition.
  ghost predicate Amortised(g: Growth, initial: nat) {
    && g.size <= g.capacity && g.size <= g.adds && initial <= g.capacity
    && g.copied <= 2 * (g.capacity - initial)
    && (g.capacity == initial || 2 * g.capacity < 3 * g.adds)
  }

  lemma ChangeKeepsAmortised(g: Growth, initial: nat, c: Change)
    requires Amortised(g, initial)
    ensures Amortised(Changed(g, c), initial)
  {
  }

  lemma {:induction false} RunIsAmortised(capacity: nat, changes: seq<Change>)
    ensures Amortised(Run(Created(capacity), changes), Created(capacity).capacity)
  {
    if changes != [] {
      RunIsAmortised(capacity, changes[..|changes| - 1]);
      var n := |changes| - 1;
      ChangeKeepsAmortised(Run(Created(capacity), changes[..n]), Created(capacity).capacity, changes[n]);
    }
  }

  // Additions and deletions in any order copy fewer than three elements for each addition.
  lemma CopiesPerAdd(capacity: nat, changes: seq<Change>)
    ensures var g := Run(Created(capacity), changes); g.copied == 0 || g.copied < 3 * g.adds
  {
    RunIsAmortised(capacity, changes);
  }

  // ----- the array -----

  class Array<T(0)> {
    var size: nat
    var capacity: nat
    var data: array<T>
    ghost var growth: Growth

    ghost predicate Valid()
      reads this
    {
      size <= capacity == data.Length && growth.size == size && growth.capacity == capacity
    }

    ghost function Contents(): (s: seq<T>)
      reads this, data
      requires Valid()
      ensures |s| == size
    {
      data[..size]
    }

    constructor (capacity: nat)
      ensures Valid() && Contents() == [] && fresh(data) && growth == Created(capacity)
    {
      var places := if capacity == 0 then 4 else capacity;
      size, this.capacity := 0, places;
      data := new T[places];
      growth := Created(capacity);
    }

    method Get(index: nat) returns (value: Option<T>)
      requires Valid()
      ensures value == if index < size then Some(Contents()[index]) else None
    {
      return if index >= size then None else Some(data[index]);
    }

    method Add(value: T)
      requires Valid()
      modifies this, data
      ensures Valid() && Contents() == old(Contents()) + [value]
      ensures growth == Changed(old(growth), Change.Add) && (data == old(data) || fresh(data))
    {
      var bigger := 1 + size;
      if bigger > capacity {
        Grow();
      }
      data[size] := value;
      size := bigger;
      growth := growth.(size := size, adds := growth.adds + 1);
    }

    // The reallocation.
    method Grow()
      requires Valid() && size == capacity
      modifies this
      ensures Valid() && Contents() == old(Contents()) && fresh(data)
      ensures size == old(size) && capacity == old(capacity) * 3 / 2 + 1
      ensures growth == old(growth).(capacity := capacity, copied := old(growth).copied + size)
    {
      capacity := capacity * 3 / 2 + 1;
      var bigger := new T[capacity];
      forall i | 0 <= i < size {
        bigger[i] := data[i];
      }
      data := bigger;
      growth := growth.(capacity := capacity, copied := growth.copied + size);
    }

    method Del(index: nat) returns (value: Option<T>)
      requires Valid()
      modifies this`size, this`growth, data
      ensures Valid() && growth == Changed(old(growth), Change.Del(index))
      ensures index >= old(size) ==> value == None && Contents() == old(Contents())
      ensures index < old(size) ==> value == Some(old(Contents())[index])
      ensures index < old(size) ==> Contents() == old(Contents())[..index] + old(Contents())[index + 1..]
    {
      if index >= size {
        return None;
      }
      value := Some(data[index]);
      if index != size - 1 {
        forall i | index <= i < size - 1 {
          data[i] := data[i + 1];
        }
      }
      size := size - 1;
      growth := growth.(size := size);
    }
  }
}
