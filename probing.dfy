/**
 * Value-level description of the slot sequence of an open-addressing hash
 * table with linear probing: how many slots are taken, which elements they
 * hold, where an insertion lands when probing forward from a home slot, how
 * growth refills a larger slot sequence, and which slot a probe for a value
 * stops at. The class in module Tables is proved against these functions.
 */
module Probing {

  datatype Option<T> = None | Some(value: T)

  /** Slot `i` exists and is empty. */
  predicate IsFree<T>(cells: seq<Option<T>>, i: nat) {
    i < |cells| && cells[i].None?
  }

  /** Slot `i` exists and holds an element. */
  predicate IsTaken<T>(cells: seq<Option<T>>, i: nat) {
    i < |cells| && cells[i].Some?
  }

  /** The elements held by the slots, counted with multiplicity. */
  function Elements<T>(cells: seq<Option<T>>): (m: multiset<T>)
  {
    if cells == [] then multiset{}
    else
      match cells[|cells| - 1]
      case None => Elements(cells[..|cells| - 1])
      case Some(v) => Elements(cells[..|cells| - 1]) + multiset{v}
  }

  /** A value is among the elements exactly when some slot holds it. */
  lemma {:induction false} ElementsHold<T>(cells: seq<Option<T>>, x: T)
    ensures x in Elements(cells) <==> Some(x) in cells
  {
    if cells != [] {
      var init := cells[..|cells| - 1];
      assert cells == init + [cells[|cells| - 1]];
      ElementsHold(init, x);
    }
  }

  /** Number of taken slots, counted one slot at a time. */
  function Occupied<T>(cells: seq<Option<T>>): (n: nat)
    ensures n == |Elements(cells)| && n <= |cells|
  {
    if cells == [] then 0
    else Occupied(cells[..|cells| - 1]) + (if cells[|cells| - 1].Some? then 1 else 0)
  }

  /** Number of empty slots, counted one slot at a time. */
  function Vacant<T>(cells: seq<Option<T>>): (n: nat)
    ensures n + Occupied(cells) == |cells|
  {
    if cells == [] then 0
    else Vacant(cells[..|cells| - 1]) + (if cells[|cells| - 1].None? then 1 else 0)
  }

  /** `n` empty slots, as `new` allocates them. */
  function EmptyCells<T>(n: nat): (r: seq<Option<T>>)
    ensures |r| == n && forall i :: 0 <= i < n ==> r[i].None?
    ensures Elements(r) == multiset{}
  {
    if n == 0 then [] else
      var r := EmptyCells(n - 1) + [None];
      assert r[..n - 1] == EmptyCells(n - 1);
      r
  }

  lemma {:induction false} ElementsConcat<T>(a: seq<Option<T>>, b: seq<Option<T>>)
    ensures Elements(a + b) == Elements(a) + Elements(b)
    decreases |b|
  {
    if b == [] {
      assert a + b == a;
    } else {
      var b' := b[..|b| - 1];
      assert (a + b)[..|a + b| - 1] == a + b';
      ElementsConcat(a, b');
    }
  }

  /** Filling the empty slot `j` with `x` adds exactly `x` to the elements. */
  lemma ElementsFill<T>(cells: seq<Option<T>>, j: nat, x: T)
    requires IsFree(cells, j)
    ensures Elements(cells[j := Some(x)]) == Elements(cells) + multiset{x}
  {
    var r := cells[j := Some(x)];
    assert cells == cells[..j] + [cells[j]] + cells[j + 1..];
    assert r == cells[..j] + [Some(x)] + cells[j + 1..];
    ElementsConcat(cells[..j] + [cells[j]], cells[j + 1..]);
    ElementsConcat(cells[..j], [cells[j]]);
    ElementsConcat(cells[..j] + [Some(x)], cells[j + 1..]);
    ElementsConcat(cells[..j], [Some(x)]);
    assert [Some(x)][..0] == [];
    assert [cells[j]][..0] == [];
  }

  /** Deleting slot `j` from the sequence (later slots move down by one). */
  function Delete<T>(cells: seq<Option<T>>, j: nat): (r: seq<Option<T>>)
    requires j < |cells|
    ensures |r| == |cells| - 1
    ensures forall i :: 0 <= i < j ==> r[i] == cells[i]
    ensures forall i :: j <= i < |r| ==> r[i] == cells[i + 1]
    ensures cells[j].Some? ==> Elements(r) == Elements(cells) - multiset{cells[j].value}
    ensures cells[j].None? ==> Elements(r) == Elements(cells)
  {
    var r := cells[..j] + cells[j + 1..];
    assert cells == cells[..j] + [cells[j]] + cells[j + 1..];
    ElementsConcat(cells[..j] + [cells[j]], cells[j + 1..]);
    ElementsConcat(cells[..j], [cells[j]]);
    ElementsConcat(cells[..j], cells[j + 1..]);
    assert [cells[j]][..0] == [];
    r
  }

  /** The slot a probe reaches `k` steps after `home`; after the last slot it wraps to slot 0. */
  function Offset(home: nat, k: nat, cap: nat): (i: nat)
    requires home < cap && k < cap
    ensures i < cap
    ensures i == (home + k) % cap
  {
    if home + k < cap then home + k else home + k - cap
  }

  /**
   * Number of probe steps from `home` to the slot an insertion fills,
   * searching from step `k` on: the first empty slot in wrap-around order.
   * None when the probe reads past the end of `cells` first (the slot
   * sequence is shorter than `cap` after a removal) or when a whole cycle
   * finds no empty slot.
   */
  function FreeStep<T>(cells: seq<Option<T>>, cap: nat, home: nat, k: nat): (r: Option<nat>)
    requires home < cap
    ensures r.Some? ==> k <= r.value < cap && IsFree(cells, Offset(home, r.value, cap))
    ensures r.Some? ==> forall m :: k <= m < r.value ==> IsTaken(cells, Offset(home, m, cap))
    ensures r.None? && |cells| == cap ==> forall m :: k <= m < cap ==> IsTaken(cells, Offset(home, m, cap))
    decreases cap - k
  {
    if k >= cap then None
    else if Offset(home, k, cap) >= |cells| then None
    else if cells[Offset(home, k, cap)].None? then Some(k)
    else FreeStep(cells, cap, home, k + 1)
  }

  lemma {:induction false} AllTakenIsFull<T>(cells: seq<Option<T>>)
    requires forall i :: 0 <= i < |cells| ==> cells[i].Some?
    ensures Occupied(cells) == |cells|
  {
    if cells != [] {
      AllTakenIsFull(cells[..|cells| - 1]);
    }
  }

  /**
   * The termination argument of insertion: on a slot sequence of full length
   * that is not full, the probe from any home slot reaches an empty slot.
   */
  lemma {:induction false} NotFullHasFree<T>(cells: seq<Option<T>>, cap: nat, home: nat)
    requires home < cap
    ensures |cells| == cap && Occupied(cells) < cap ==> FreeStep(cells, cap, home, 0).Some?
  {
    if |cells| == cap && FreeStep(cells, cap, home, 0).None? {
      forall i | 0 <= i < |cells|
        ensures cells[i].Some?
      {
        var m := if i >= home then i - home else i + cap - home;
        assert IsTaken(cells, Offset(home, m, cap));
      }
      AllTakenIsFull(cells);
    }
  }

  /**
   * The slots after an insertion that probes from `home`: the first empty
   * slot in wrap-around order from `home` now holds `x`, nothing else changes.
   */
  function Place<T>(cells: seq<Option<T>>, cap: nat, home: nat, x: T): (r: seq<Option<T>>)
    requires home < cap
    requires FreeStep(cells, cap, home, 0).Some? || (|cells| == cap && Occupied(cells) < cap)
    ensures |r| == |cells|
    ensures Elements(r) == Elements(cells) + multiset{x}
    ensures Occupied(r) == Occupied(cells) + 1
    ensures IsTaken(r, home)
    ensures IsFree(cells, home) ==> r == cells[home := Some(x)]
  {
    NotFullHasFree(cells, cap, home);
    var j := Offset(home, FreeStep(cells, cap, home, 0).value, cap);
    ElementsFill(cells, j, x);
    cells[j := Some(x)]
  }

  /**
   * After an insertion probing from `home`, a lookup starting at `home`
   * finds the inserted value: the home slot is taken and some slot holds it.
   */
  lemma PlaceIsFound<T>(cells: seq<Option<T>>, cap: nat, home: nat, x: T)
    requires home < cap
    requires FreeStep(cells, cap, home, 0).Some? || (|cells| == cap && Occupied(cells) < cap)
    ensures IsTaken(Place(cells, cap, home, x), home) && Some(x) in Place(cells, cap, home, x)
  {
    ElementsHold(Place(cells, cap, home, x), x);
  }

  /** An insertion fills an empty slot: every slot that was taken keeps its element. */
  lemma PlaceKeepsTaken<T>(cells: seq<Option<T>>, cap: nat, home: nat, x: T, i: nat)
    requires home < cap
    requires FreeStep(cells, cap, home, 0).Some? || (|cells| == cap && Occupied(cells) < cap)
    requires IsTaken(cells, i)
    ensures Place(cells, cap, home, x)[i] == cells[i]
  {
    NotFullHasFree(cells, cap, home);
  }

  /** `d` is the number of steps from `home` to the first empty slot. */
  ghost predicate FirstFree<T>(cells: seq<Option<T>>, cap: nat, home: nat, d: nat)
    requires home < cap
  {
    d < cap && IsFree(cells, Offset(home, d, cap)) &&
    forall m :: 0 <= m < d ==> IsTaken(cells, Offset(home, m, cap))
  }

  /**
   * Insertion fills exactly one slot, the first empty one at or after
   * `home` with the last slot followed by slot 0, and leaves all others as
   * they were.
   */
  lemma PlaceFillsFirstFree<T>(cells: seq<Option<T>>, cap: nat, home: nat, x: T)
    requires home < cap && FreeStep(cells, cap, home, 0).Some?
    ensures exists d: nat :: FirstFree(cells, cap, home, d) &&
                        Place(cells, cap, home, x) == cells[Offset(home, d, cap) := Some(x)]
  {
    var d := FreeStep(cells, cap, home, 0).value;
    assert FirstFree(cells, cap, home, d);
  }

  /**
   * The slot sequence growth builds: `cap` empty slots into which the
   * occupants of `src` are inserted one by one, in slot order, each probing
   * from its home slot under `cap`.
   */
  function Refill<T>(cap: nat, hash: T -> nat, src: seq<Option<T>>): (r: seq<Option<T>>)
    requires 0 < cap && Occupied(src) <= cap
    ensures |r| == cap
    ensures Elements(r) == Elements(src) && Occupied(r) == Occupied(src)
    decreases |src|
  {
    if src == [] then EmptyCells(cap)
    else
      var acc := Refill(cap, hash, src[..|src| - 1]);
      match src[|src| - 1]
      case None => acc
      case Some(v) => Place(acc, cap, hash(v) % cap, v)
  }

  /** Refilling one more slot of `src` places its occupant, if any, into the slots refilled so far. */
  lemma RefillStep<T>(cap: nat, hash: T -> nat, src: seq<Option<T>>, i: nat)
    requires i < |src| <= cap
    ensures Occupied(src[..i]) <= i < cap && Occupied(src[..i + 1]) <= cap
    ensures src[i].None? ==> Refill(cap, hash, src[..i + 1]) == Refill(cap, hash, src[..i])
    ensures src[i].Some? ==>
              Refill(cap, hash, src[..i + 1]) ==
              Place(Refill(cap, hash, src[..i]), cap, hash(src[i].value) % cap, src[i].value)
  {
    assert src[..i + 1][..i] == src[..i];
  }

  /** Every stored element's home slot under `cap` is taken: what an early-exit lookup needs. */
  ghost predicate HomesTaken<T>(cells: seq<Option<T>>, cap: nat, hash: T -> nat)
    requires 0 < cap
  {
    forall i :: 0 <= i < |cells| && cells[i].Some? ==> IsTaken(cells, hash(cells[i].value) % cap)
  }

  lemma PlaceKeepsHomesTaken<T>(cells: seq<Option<T>>, cap: nat, hash: T -> nat, x: T)
    requires 0 < cap && FreeStep(cells, cap, hash(x) % cap, 0).Some?
    requires HomesTaken(cells, cap, hash)
    ensures HomesTaken(Place(cells, cap, hash(x) % cap, x), cap, hash)
  {
    var r := Place(cells, cap, hash(x) % cap, x);
    forall i | 0 <= i < |r| && r[i].Some?
      ensures IsTaken(r, hash(r[i].value) % cap)
    {
      if IsTaken(cells, i) {
        PlaceKeepsTaken(cells, cap, hash(x) % cap, x, i);
        PlaceKeepsTaken(cells, cap, hash(x) % cap, x, hash(cells[i].value) % cap);
      } else {
        assert r == cells[i := Some(x)] by {
          NotFullHasFree(cells, cap, hash(x) % cap);
        }
      }
    }
  }

  /** After growth every element sits where a lookup starting from its home slot will look. */
  lemma {:induction false} RefillHomesTaken<T>(cap: nat, hash: T -> nat, src: seq<Option<T>>)
    requires 0 < cap && Occupied(src) <= cap
    ensures HomesTaken(Refill(cap, hash, src), cap, hash)
    decreases |src|
  {
    if src != [] {
      var init := src[..|src| - 1];
      RefillHomesTaken(cap, hash, init);
      var acc := Refill(cap, hash, init);
      match src[|src| - 1]
      case None =>
      case Some(v) =>
        NotFullHasFree(acc, cap, hash(v) % cap);
        PlaceKeepsHomesTaken(acc, cap, hash, v);
    }
  }

  /** The first slot in `[lo, hi)` that holds `x`, if any. */
  function IndexIn<T(==)>(cells: seq<Option<T>>, x: T, lo: nat, hi: nat): (r: Option<nat>)
    ensures r.Some? ==> lo <= r.value < hi && r.value < |cells| && cells[r.value] == Some(x)
    ensures r.Some? ==> forall i :: lo <= i < r.value ==> cells[i] != Some(x)
    ensures r.None? ==> forall i :: lo <= i < hi && i < |cells| ==> cells[i] != Some(x)
    decreases hi - lo
  {
    if lo >= hi || lo >= |cells| then None
    else if cells[lo] == Some(x) then Some(lo)
    else IndexIn(cells, x, lo + 1, hi)
  }

  /** Probe steps left after slot `prev` before a probe is back at `home`. */
  function StepsLeft(home: nat, prev: nat, cap: nat): nat
    requires prev < cap
  {
    if home <= prev then cap - prev + home else home - prev
  }

  /**
   * Slot `i` comes strictly after `prev` and strictly before `j` on a probe
   * that walks upwards from `prev` and wraps around to slot 0.
   */
  predicate Between(prev: nat, i: nat, j: nat) {
    if prev < j then prev < i < j else prev < i || i < j
  }

  /**
   * The first slot holding `x` that a probe visits after slot `prev` and
   * before it comes back to `home`: upwards to the end, then from slot 0.
   */
  function HitAfter<T(==)>(cells: seq<Option<T>>, home: nat, prev: nat, x: T): (r: Option<nat>)
    ensures r.Some? ==> r.value < |cells| && cells[r.value] == Some(x) && Between(prev, r.value, home)
    ensures r.Some? ==> forall i :: 0 <= i < |cells| && Between(prev, i, r.value) ==> cells[i] != Some(x)
    ensures r.None? ==> forall i :: 0 <= i < |cells| && Between(prev, i, home) ==> cells[i] != Some(x)
  {
    if home <= prev then
      match IndexIn(cells, x, prev + 1, |cells|)
      case Some(j) => Some(j)
      case None => IndexIn(cells, x, 0, home)
    else IndexIn(cells, x, prev + 1, home)
  }

  /** One probe step: the slot after `prev` either holds `x` or the search goes on after it. */
  lemma HitAfterStep<T>(cells: seq<Option<T>>, cap: nat, home: nat, prev: nat, next: nat, x: T)
    requires |cells| <= cap && prev < cap && home < cap
    requires next == if prev + 1 == cap then 0 else prev + 1
    requires next != home && next < |cells|
    ensures HitAfter(cells, home, prev, x) ==
              if cells[next] == Some(x) then Some(next) else HitAfter(cells, home, next, x)
  {
    if prev + 1 == cap {
      assert IndexIn(cells, x, prev + 1, |cells|) == None;
      assert IndexIn(cells, x, 0, home) == if cells[0] == Some(x) then Some(0) else IndexIn(cells, x, 1, home);
    } else if home <= prev {
      assert IndexIn(cells, x, next, |cells|) == if cells[next] == Some(x) then Some(next) else IndexIn(cells, x, next + 1, |cells|);
    } else {
      assert IndexIn(cells, x, next, home) == if cells[next] == Some(x) then Some(next) else IndexIn(cells, x, next + 1, home);
    }
  }

  /**
   * The slot a lookup or removal of `x` stops at: none when the home slot
   * is empty, otherwise the home slot if it holds `x`, otherwise the first
   * slot after it (wrapping) that holds `x`.
   */
  function ProbeHit<T(==)>(cells: seq<Option<T>>, home: nat, x: T): (r: Option<nat>)
    ensures r.Some? ==> r.value < |cells| && cells[r.value] == Some(x)
    ensures r.Some? <==> IsTaken(cells, home) && Some(x) in cells
  {
    if !IsTaken(cells, home) then None
    else if cells[home] == Some(x) then Some(home)
    else
      var r := HitAfter(cells, home, home, x);
      assert r.None? ==> forall i :: 0 <= i < |cells| ==> cells[i] != Some(x);
      r
  }

  /**
   * On a slot sequence of full length the slot ProbeHit picks is the first
   * one holding `x` in probe order: `d` steps from `home`, and none of the
   * slots fewer steps away holds `x`.
   */
  lemma HitIsFirstInProbeOrder<T>(cells: seq<Option<T>>, cap: nat, home: nat, x: T)
    requires home < cap == |cells|
    ensures var r := ProbeHit(cells, home, x);
            r.Some? ==> exists d: nat :: d < cap && r.value == Offset(home, d, cap) &&
                                    forall m :: 0 <= m < d ==> cells[Offset(home, m, cap)] != Some(x)
  {
    var r := ProbeHit(cells, home, x);
    if r.Some? {
      var j := r.value;
      var d := if j >= home then j - home else j + cap - home;
      assert Offset(home, d, cap) == j;
      forall m | 0 <= m < d
        ensures cells[Offset(home, m, cap)] != Some(x)
      {
        var i := Offset(home, m, cap);
        if j >= home {
          assert home <= i < j;
        } else {
          assert home <= i || i < j;
        }
      }
    }
  }
}
