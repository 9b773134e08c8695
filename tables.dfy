/**
 * The generic hash table of src/lib.rs: a vector of optional slots, a
 * capacity and a growability flag, with insertion by linear probing,
 * doubling growth, lookup and removal by a full-cycle probe.
 *
 * The element type's `Hashable` capability is the function `hash`, fixed
 * when the table is created; the element type's `PartialEq` is Dafny
 * equality.
 */
module Tables {
  import opened Probing

  /** The one designed runtime error: inserting into a full table that may not grow. */
  datatype TableError = CapacityReached

  datatype Status = Ok | Err(error: TableError)

  /** The home slot of a value: its hash reduced modulo the table size. */
  function HashFunction<T>(hash: T -> nat, input: T, tableSize: nat): (r: nat)
    requires tableSize > 0
    ensures r < tableSize && hash(input) == hash(input) / tableSize * tableSize + r
    ensures hash(input) < tableSize ==> r == hash(input)
  {
    hash(input) % tableSize
  }

  /**
   * The capacity and slots after one successful `insert` of `x` into a slot
   * sequence of full length: a full table doubles and refills first, and
   * `x` is then placed by probing from its home slot under the capacity
   * before growth.
   */
  function InsertStep<T>(cap: nat, growable: bool, hash: T -> nat, cells: seq<Option<T>>, x: T): (r: (nat, seq<Option<T>>))
    requires 0 < cap && |cells| == cap && (growable || Occupied(cells) < cap)
    ensures 0 < r.0 && |r.1| == r.0 && Occupied(r.1) == Occupied(cells) + 1
    ensures Elements(r.1) == Elements(cells) + multiset{x}
    ensures r.0 == if Occupied(cells) == cap then 2 * cap else cap
  {
    var home := HashFunction(hash, x, cap);
    var full := Occupied(cells) == cap;
    var newCap: nat := if full then 2 * cap else cap;
    var start := if full then Refill(newCap, hash, cells) else cells;
    assert |start| == newCap && Occupied(start) == Occupied(cells) < newCap;
    assert Elements(start) == Elements(cells);
    (newCap, Place(start, newCap, home, x))
  }

  /** The two shapes of an insertion step: placement alone, or placement after growth and refill. */
  lemma InsertStepCases<T>(cap: nat, growable: bool, hash: T -> nat, cells: seq<Option<T>>, x: T)
    requires 0 < cap && |cells| == cap && (growable || Occupied(cells) < cap)
    ensures Occupied(cells) < cap ==>
              InsertStep(cap, growable, hash, cells, x) == (cap, Place(cells, cap, HashFunction(hash, x, cap), x))
    ensures Occupied(cells) == cap ==>
              InsertStep(cap, growable, hash, cells, x) ==
              (2 * cap, Place(Refill(2 * cap, hash, cells), 2 * cap, HashFunction(hash, x, cap), x))
  {
  }

  /** The capacity and slots after inserting `values` one by one, in order, as `insert_vector` does. */
  function InsertAll<T>(cap: nat, growable: bool, hash: T -> nat, cells: seq<Option<T>>, values: seq<T>): (r: (nat, seq<Option<T>>))
    requires 0 < cap && |cells| == cap && (growable || Occupied(cells) + |values| <= cap)
    ensures cap <= r.0 && |r.1| == r.0 && Occupied(r.1) == Occupied(cells) + |values|
    ensures !growable ==> r.0 == cap
    decreases |values|
  {
    if values == [] then (cap, cells)
    else
      var acc := InsertAll(cap, growable, hash, cells, values[..|values| - 1]);
      assert growable || (acc.0 == cap && Occupied(acc.1) < cap);
      InsertStep(acc.0, growable, hash, acc.1, values[|values| - 1])
  }

  /** Inserting `values` in order adds exactly their multiset to the elements. */
  lemma {:induction false} InsertAllElements<T>(cap: nat, growable: bool, hash: T -> nat, cells: seq<Option<T>>, values: seq<T>)
    requires 0 < cap && |cells| == cap && (growable || Occupied(cells) + |values| <= cap)
    ensures Elements(InsertAll(cap, growable, hash, cells, values).1) == Elements(cells) + multiset(values)
    decreases |values|
  {
    if values != [] {
      var init := values[..|values| - 1];
      var last := values[|values| - 1];
      assert values == init + [last];
      InsertAllElements(cap, growable, hash, cells, init);
    }
  }

  /** One more value of `insert_vector` is one more `insert` step on the state the earlier values left. */
  lemma InsertAllStep<T>(cap: nat, growable: bool, hash: T -> nat, cells: seq<Option<T>>, values: seq<T>, i: nat)
    requires 0 < cap && |cells| == cap && (growable || Occupied(cells) + |values| <= cap)
    requires i < |values|
    ensures var acc := InsertAll(cap, growable, hash, cells, values[..i]);
            (growable || Occupied(acc.1) < acc.0) &&
            InsertAll(cap, growable, hash, cells, values[..i + 1]) == InsertStep(acc.0, growable, hash, acc.1, values[i])
  {
    var prefix := values[..i + 1];
    assert prefix[..|prefix| - 1] == values[..i] && prefix[|prefix| - 1] == values[i];
    var acc := InsertAll(cap, growable, hash, cells, values[..i]);
    assert Occupied(acc.1) == Occupied(cells) + i;
  }

  class HashTable<T(==)> {
    var capacity: nat
    var growable: bool
    var cells: seq<Option<T>>
    const hash: T -> nat

    /**
     * The slot sequence is never longer than the capacity. It is exactly as
     * long until a removal deletes a slot from it.
     */
    ghost predicate Valid()
      reads this
    {
      |cells| <= capacity
    }

    /** No removal has shortened the slot sequence. */
    ghost predicate Intact()
      reads this
    {
      |cells| == capacity
    }

    constructor (capacity: nat, growable: bool, hash: T -> nat)
      ensures Valid() && Intact()
      ensures this.capacity == capacity && this.growable == growable && this.hash == hash
      ensures cells == EmptyCells(capacity)
      ensures Size() == 0 && IsEmpty()
    {
      this.capacity := capacity;
      this.growable := growable;
      this.hash := hash;
      this.cells := EmptyCells(capacity);
    }

    /** `is_empty`: the number of empty slots equals the capacity. */
    function IsEmpty(): (b: bool)
      reads this
      requires Valid()
      ensures b <==> Intact() && Size() == 0
    {
      Vacant(cells) == capacity
    }

    /** `size`: the number of taken slots, which is the number of stored elements. */
    function Size(): (n: nat)
      reads this
      ensures n == |Elements(cells)|
      ensures n <= |cells|
    {
      Occupied(cells)
    }

    /** `get_index`: the content of slot `index`, which must exist. */
    function GetIndex(index: nat): (r: Option<T>)
      reads this
      requires index < |cells|
      ensures r.Some? <==> IsTaken(cells, index)
      ensures r.Some? ==> cells[index] == Some(r.value) && r.value in Elements(cells)
    {
      match cells[index]
      case None => None
      case Some(v) => ElementsHold(cells, v); Some(v)
    }

    /** `calculate_next_index_for_reccursion`: the slot after `prev`, wrapping to 0 at the capacity. */
    function NextIndex(prev: nat): (r: nat)
      reads this
      ensures prev < capacity ==> r < capacity && r == (prev + 1) % capacity
      ensures prev + 1 != capacity ==> r == prev + 1
    {
      if prev + 1 == capacity then 0 else prev + 1
    }

    /**
     * A lookup or removal of `x` reads only existing slots: on a shortened
     * slot sequence that holds when the home slot exists and either is empty
     * or `x` is found at or after it before the probe runs off the end.
     */
    ghost predicate ProbeInRange(x: T)
      reads this
    {
      0 < capacity && Valid() &&
      (Intact() ||
       (HashFunction(hash, x, capacity) < |cells| &&
        (cells[HashFunction(hash, x, capacity)].None? ||
         exists i :: HashFunction(hash, x, capacity) <= i < |cells| && cells[i] == Some(x))))
    }

    /**
     * `get`: none when the home slot is empty; otherwise `x` exactly when
     * some slot holds it, since the probe then covers every slot.
     */
    function Get(x: T): (r: Option<T>)
      reads this
      requires ProbeInRange(x)
      ensures r == if IsTaken(cells, HashFunction(hash, x, capacity)) && Some(x) in cells then Some(x) else None
      ensures r == if ProbeHit(cells, HashFunction(hash, x, capacity), x).Some? then Some(x) else None
    {
      var home := HashFunction(hash, x, capacity);
      match cells[home]
      case None => None
      case Some(s) => if s == x then Some(s) else GetNext(x, home)
    }

    /**
     * `get_next`: the slots after `prev` up to the home slot, in probe
     * order, skipping empty slots; `x` if one of them holds it.
     */
    function GetNext(x: T, prev: nat): (r: Option<T>)
      reads this
      requires 0 < capacity && Valid() && prev < capacity
      requires Intact() || (HashFunction(hash, x, capacity) <= prev && exists i :: prev < i < |cells| && cells[i] == Some(x))
      ensures r == if HitAfter(cells, HashFunction(hash, x, capacity), prev, x).Some? then Some(x) else None
      decreases StepsLeft(HashFunction(hash, x, capacity), prev, capacity)
    {
      var next := NextIndex(prev);
      if next == HashFunction(hash, x, capacity) then None
      else
        match cells[next]
        case Some(s) => if s == x then Some(s) else GetNext(x, next)
        case None => GetNext(x, next)
    }

    /**
     * Insertion of `x` does not panic. On a slot sequence of full length a
     * full table grows or reports an error and a table that is not full has
     * an empty slot; on a shortened one the probe from the home slot must
     * meet an empty slot before it reads past the end.
     */
    ghost predicate InsertInRange(x: T)
      reads this
    {
      0 < capacity && Valid() &&
      (Intact() || FreeStep(cells, capacity, HashFunction(hash, x, capacity), 0).Some?)
    }

    /**
     * `insert`: the home slot is computed under the capacity before any
     * growth. A full table either reports CapacityReached, unchanged, or
     * doubles and refills its slots; then `x` goes to the first empty slot
     * at or after that home slot.
     */
    method Insert(x: T) returns (r: Status)
      requires InsertInRange(x)
      modifies this
      ensures Valid() && growable == old(growable)
      ensures r.Err? <==> old(Size()) == old(capacity) && !growable
      ensures r.Err? ==> cells == old(cells) && capacity == old(capacity)
      ensures r.Ok? && old(Size()) < old(capacity) ==>
                capacity == old(capacity) &&
                cells == Place(old(cells), capacity, HashFunction(hash, x, capacity), x)
      ensures r.Ok? && old(Size()) == old(capacity) ==>
                capacity == 2 * old(capacity) &&
                cells == Place(Refill(capacity, hash, old(cells)), capacity, HashFunction(hash, x, old(capacity)), x)
      ensures r.Ok? ==> Elements(cells) == old(Elements(cells)) + multiset{x}
      ensures r.Ok? ==> Size() == old(Size()) + 1
      ensures old(Intact()) ==> Intact()
      decreases if Size() == capacity then 1 else 0, 1
    {
      var home := HashFunction(hash, x, capacity);
      if Size() == capacity {
        if growable {
          GrowCells();
        } else {
          return Err(CapacityReached);
        }
      }
      NotFullHasFree(cells, capacity, home);
      InsertAt(x, home);
      r := Ok;
    }

    /**
     * The second half of `insert`: `x` goes into its home slot if that is
     * empty, otherwise the probe goes on after it to the first empty slot.
     */
    method InsertAt(x: T, home: nat)
      requires 0 < capacity && Valid() && home < capacity
      requires FreeStep(cells, capacity, home, 0).Some?
      modifies this
      ensures capacity == old(capacity) && growable == old(growable)
      ensures cells == Place(old(cells), capacity, home, x)
    {
      if cells[home].Some? {
        assert FreeStep(cells, capacity, home, 0) == FreeStep(cells, capacity, home, 1);
        InsertNextIndex(x, home, home, 0);
      } else {
        cells := cells[home := Some(x)];
      }
    }

    /**
     * `grow_cells`: doubles the capacity and re-inserts the old occupants,
     * in slot order, into the new empty slots.
     */
    method GrowCells()
      requires 0 < capacity && Valid()
      modifies this
      ensures capacity == 2 * old(capacity) && growable == old(growable)
      ensures cells == Refill(capacity, hash, old(cells))
      ensures Intact() && Elements(cells) == old(Elements(cells))
      decreases 0, 2
    {
      var newCapacity := capacity * 2;
      var oldCells := cells;
      cells := EmptyCells(newCapacity);
      capacity := newCapacity;
      for i := 0 to |oldCells|
        invariant capacity == newCapacity && growable == old(growable)
        invariant cells == Refill(newCapacity, hash, oldCells[..i])
      {
        RefillStep(newCapacity, hash, oldCells, i);
        if oldCells[i].Some? {
          var s := oldCells[i].value;
          ghost var before := cells;
          assert 0 < capacity && Intact() && Size() < capacity;
          var _ := Insert(s);
          assert cells == Place(before, capacity, HashFunction(hash, s, capacity), s);
        }
      }
      assert oldCells[..|oldCells|] == oldCells;
    }

    /**
     * `insert_next_index`: the probe goes on after `prev`, which is `k`
     * steps from `home`, and fills the first empty slot it meets.
     */
    method InsertNextIndex(x: T, prev: nat, ghost home: nat, ghost k: nat)
      requires 0 < capacity && Valid() && home < capacity && k < capacity
      requires prev == Offset(home, k, capacity)
      requires FreeStep(cells, capacity, home, k + 1).Some?
      modifies this
      ensures capacity == old(capacity) && growable == old(growable)
      ensures cells == old(cells)[Offset(home, FreeStep(old(cells), capacity, home, k + 1).value, capacity) := Some(x)]
      decreases capacity - k
    {
      var next := NextIndex(prev);
      assert next == Offset(home, k + 1, capacity);
      if cells[next].Some? {
        InsertNextIndex(x, next, home, k + 1);
      } else {
        cells := cells[next := Some(x)];
      }
    }

    /**
     * `remove`: searches as `get` does; on a match the slot is deleted from
     * the sequence (later slots move down, the capacity stays) and its
     * value returned; otherwise nothing changes.
     */
    method Remove(x: T) returns (r: Option<T>)
      requires ProbeInRange(x)
      modifies this
      ensures Valid() && capacity == old(capacity) && growable == old(growable)
      ensures r == old(Get(x))
      ensures var hit := ProbeHit(old(cells), HashFunction(hash, x, capacity), x);
              cells == if hit.Some? then Delete(old(cells), hit.value) else old(cells)
      ensures r.Some? ==> |cells| == old(|cells|) - 1 && Elements(cells) == old(Elements(cells)) - multiset{x}
      ensures r.Some? ==> !IsEmpty()
    {
      var home := HashFunction(hash, x, capacity);
      match cells[home] {
        case None =>
          r := None;
        case Some(s) =>
          if s == x {
            r := cells[home];
            cells := Delete(cells, home);
          } else {
            r := RemoveNext(x, home);
          }
      }
    }

    /** `remove_next`: the probe of `get_next`, deleting the slot it stops at. */
    method RemoveNext(x: T, prev: nat) returns (r: Option<T>)
      requires 0 < capacity && Valid() && prev < capacity
      requires Intact() || (HashFunction(hash, x, capacity) <= prev && exists i :: prev < i < |cells| && cells[i] == Some(x))
      modifies this
      ensures capacity == old(capacity) && growable == old(growable)
      ensures var hit := HitAfter(old(cells), HashFunction(hash, x, capacity), prev, x);
              r == (if hit.Some? then Some(x) else None) &&
              cells == if hit.Some? then Delete(old(cells), hit.value) else old(cells)
      decreases StepsLeft(HashFunction(hash, x, capacity), prev, capacity)
    {
      var next := NextIndex(prev);
      if next == HashFunction(hash, x, capacity) {
        return None;
      }
      HitAfterStep(cells, capacity, HashFunction(hash, x, capacity), prev, next, x);
      match cells[next] {
        case Some(a) =>
          if a == x {
            r := cells[next];
            cells := Delete(cells, next);
          } else {
            r := RemoveNext(x, next);
          }
        case None =>
          r := RemoveNext(x, next);
      }
    }

    /** Every stored element's home slot under the current capacity is taken. */
    ghost predicate Findable()
      reads this
      requires 0 < capacity
    {
      HomesTaken(cells, capacity, hash)
    }

    /** On a slot sequence of full length where homes are taken, `get` finds every stored element. */
    lemma StoredIsFound(x: T)
      requires 0 < capacity && Intact() && Findable()
      requires Some(x) in cells
      ensures Get(x) == Some(x)
    {
      var i :| 0 <= i < |cells| && cells[i] == Some(x);
      assert IsTaken(cells, hash(cells[i].value) % capacity);
    }

    /**
     * `insert` with the home slot computed after a growth instead of before
     * it, so that the new element is probed from its home slot under the
     * capacity `get` will use.
     */
    method InsertRehomed(x: T) returns (r: Status)
      requires InsertInRange(x)
      modifies this
      ensures Valid() && growable == old(growable)
      ensures r.Err? <==> old(Size()) == old(capacity) && !growable
      ensures r.Err? ==> cells == old(cells) && capacity == old(capacity)
      ensures r.Ok? && old(Size()) < old(capacity) ==>
                capacity == old(capacity) &&
                cells == Place(old(cells), capacity, HashFunction(hash, x, capacity), x)
      ensures r.Ok? && old(Size()) == old(capacity) ==>
                capacity == 2 * old(capacity) &&
                cells == Place(Refill(capacity, hash, old(cells)), capacity, HashFunction(hash, x, capacity), x)
      ensures r.Ok? ==> Elements(cells) == old(Elements(cells)) + multiset{x}
      ensures old(Intact()) ==> Intact()
      ensures old(Intact()) && old(Findable()) ==> Findable()
      ensures r.Ok? ==> Some(x) in cells && IsTaken(cells, HashFunction(hash, x, capacity))
    {
      if Size() == capacity {
        if growable {
          GrowCells();
          RefillHomesTaken(capacity, hash, old(cells));
        } else {
          return Err(CapacityReached);
        }
      }
      var home := HashFunction(hash, x, capacity);
      NotFullHasFree(cells, capacity, home);
      if Intact() && Findable() {
        PlaceKeepsHomesTaken(cells, capacity, hash, x);
      }
      PlaceIsFound(cells, capacity, home, x);
      InsertAt(x, home);
      r := Ok;
    }

    /**
     * `remove` with the matching slot emptied in place instead of deleted
     * from the sequence, so the slot count stays the capacity.
     */
    method RemoveClearing(x: T) returns (r: Option<T>)
      requires ProbeInRange(x)
      modifies this
      ensures Valid() && capacity == old(capacity) && growable == old(growable)
      ensures r == old(Get(x))
      ensures var hit := ProbeHit(old(cells), HashFunction(hash, x, capacity), x);
              cells == if hit.Some? then old(cells)[hit.value := None] else old(cells)
      ensures r.Some? ==> Elements(cells) == old(Elements(cells)) - multiset{x}
      ensures old(Intact()) ==> Intact() && (IsEmpty() <==> Size() == 0)
    {
      var hit := ProbeHit(cells, HashFunction(hash, x, capacity), x);
      match hit {
        case Some(j) =>
          r := cells[j];
          ElementsFill(cells[j := None], j, x);
          assert cells[j := None][j := Some(x)] == cells;
          cells := cells[j := None];
        case None =>
          r := None;
      }
    }

    /**
     * `insert_vector`: inserts the values in order. Every insertion must
     * succeed (a failure panics), so the table holds all of them afterwards.
     */
    method InsertVector(values: seq<T>) returns (r: Status)
      requires 0 < capacity && Intact()
      requires growable || Size() + |values| <= capacity
      modifies this
      ensures r == Ok && Valid() && Intact() && growable == old(growable)
      ensures (capacity, cells) == InsertAll(old(capacity), growable, hash, old(cells), values)
      ensures Elements(cells) == old(Elements(cells)) + multiset(values)
      ensures Size() == old(Size()) + |values|
    {
      for i := 0 to |values|
        invariant growable == old(growable)
        invariant (capacity, cells) == InsertAll(old(capacity), growable, hash, old(cells), values[..i])
      {
        InsertAllStep(old(capacity), growable, hash, old(cells), values, i);
        ghost var before := (capacity, cells);
        assert 0 < capacity && Intact() && (growable || Size() < capacity);
        var inserted := Insert(values[i]);
        assert inserted.Ok?;
        InsertStepCases(before.0, growable, hash, before.1, values[i]);
        assert (capacity, cells) == InsertStep(before.0, growable, hash, before.1, values[i]);
      }
      assert values[..|values|] == values;
      InsertAllElements(old(capacity), growable, hash, old(cells), values);
      r := Ok;
    }
  }
}
