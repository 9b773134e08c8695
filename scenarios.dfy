/**
 * The unit tests at the end of src/lib.rs, stated as client methods whose
 * postconditions are what the tests assert, together with the two inputs
 * that show where the code departs from what it evidently intends.
 */
module Scenarios {
  import opened Probing
  import opened Tables
  import opened TypeHashes

  /** The one-letter text with code point 'a' + i. */
  function Letter(i: nat): (s: string)
    requires i < 26
    ensures |s| == 1 && CodePointSum(s) == 97 + i
  {
    [(97 + i) as char]
  }

  /** A new table of ten slots is empty. */
  method NewTableIsEmpty() returns (empty: bool, size: nat)
    ensures empty && size == 0
  {
    var t := new HashTable<string>(10, false, CodePointSum);
    empty := t.IsEmpty();
    size := t.Size();
  }

  /** Two inserts into an empty table of ten slots give size 2, and the table is no longer empty. */
  method TwoInserts() returns (size: nat, empty: bool)
    ensures size == 2 && !empty
  {
    var t := new HashTable<string>(10, false, CodePointSum);
    var _ := t.Insert("abcd");
    var _ := t.Insert("efgh");
    size := t.Size();
    empty := t.IsEmpty();
  }

  /** "a" and "k" share home slot 7; both are stored and "k" is found and removed. */
  method CollidingInserts() returns (homeA: nat, homeK: nat, size: nat, found: Option<string>, removed: Option<string>)
    ensures homeA == 7 && homeK == 7
    ensures size == 2 && found == Some("k") && removed == Some("k")
  {
    CollidingLetters();
    homeA := HashFunction(CodePointSum, "a", 10);
    homeK := HashFunction(CodePointSum, "k", 10);
    var t := new HashTable<string>(10, false, CodePointSum);
    var _ := t.Insert("a");
    ghost var before := t.cells;
    var _ := t.Insert("k");
    PlaceIsFound(before, 10, 7, "k");
    size := t.Size();
    found := t.Get("k");
    removed := t.Remove("k");
  }

  /** Inserting into an empty home slot puts the value in exactly that slot. */
  method GetByIndex() returns (slot: Option<string>)
    ensures slot == Some("abcd")
  {
    var t := new HashTable<string>(10, false, CodePointSum);
    var _ := t.Insert("abcd");
    slot := t.GetIndex(HashFunction(CodePointSum, "abcd", 10));
  }

  /** Removing a stored value returns it; removing from an empty table returns none. */
  method RemoveStoredAndMissing() returns (removed: Option<string>, missing: Option<string>)
    ensures removed == Some("abcd") && missing == None
  {
    var t := new HashTable<string>(10, false, CodePointSum);
    var _ := t.Insert("abcd");
    ghost var home := HashFunction(CodePointSum, "abcd", 10);
    PlaceIsFound(EmptyCells(10), 10, home, "abcd");
    ghost var before := t.cells;
    var _ := t.Insert("efgh");
    PlaceKeepsTaken(before, 10, HashFunction(CodePointSum, "efgh", 10), "efgh", home);
    assert t.cells[home] == Some("abcd");
    removed := t.Remove("abcd");

    var e := new HashTable<string>(10, false, CodePointSum);
    missing := e.Remove("abcd");
  }

  /** A growable table of ten slots takes all 26 letters, growing 10 -> 20 -> 40. */
  method GrowingTable() returns (size: nat, capacity: nat)
    ensures size == 26 && capacity == 40
  {
    var t := new HashTable<string>(10, true, CodePointSum);
    for i := 0 to 26
      invariant t.Valid() && t.Intact() && t.growable
      invariant t.Size() == i
      invariant t.capacity == if i <= 10 then 10 else if i <= 20 then 20 else 40
    {
      var _ := t.Insert(Letter(i));
    }
    size, capacity := t.Size(), t.capacity;
  }

  /** A table of ten slots that may not grow accepts exactly ten letters, then reports CapacityReached. */
  method NonGrowableTable() returns (accepted: nat, size: nat, error: Status)
    ensures accepted == 10 && size == 10 && error == Err(CapacityReached)
  {
    var t := new HashTable<string>(10, false, CodePointSum);
    accepted := 0;
    error := Ok;
    while accepted < 26 && error.Ok?
      invariant accepted <= 10 && t.Valid() && t.Intact() && !t.growable && t.capacity == 10
      invariant t.Size() == accepted
      invariant error.Err? ==> accepted == 10 && error == Err(CapacityReached)
      decreases 26 - accepted, if error.Ok? then 1 else 0
    {
      var r := t.Insert(Letter(accepted));
      if r.Err? {
        error := r;
      } else {
        accepted := accepted + 1;
      }
    }
    size := t.Size();
  }

  /** Nine distinct u32 values inserted as one vector into a growable table give size 9. */
  method InsertVec() returns (size: nat)
    ensures size == 9
  {
    var t := new HashTable<u32>(10, true, HashU32);
    var _ := t.InsertVector([22, 10, 2, 30, 23, 45, 1, 67, 4]);
    size := t.Size();
  }

  /** The stale-home example before growth: 0 and 2 fill a table of two slots. */
  lemma StaleHomeBeforeGrowth()
    ensures Place(EmptyCells(2), 2, 0, 0) == [Some(0), None]
    ensures Place([Some(0), None], 2, 0, 2) == [Some(0), Some(2)]
  {
    assert EmptyCells<nat>(2) == [None, None];
    assert FreeStep([Some(0), None], 2, 0, 0) == FreeStep([Some(0), None], 2, 0, 1) == Some(1);
  }

  /** Growth to four slots under a hash fixing 0 and 2 puts each in its home slot. */
  lemma StaleHomeGrowth(hash: nat -> nat)
    requires hash(0) == 0 && hash(2) == 2
    ensures Refill<nat>(4, hash, [Some(0), Some(2)]) == [Some(0), None, Some(2), None]
  {
    var full: seq<Option<nat>> := [Some(0), Some(2)];
    var first: seq<Option<nat>> := [Some(0)];
    assert full[..1] == first;
    assert first[..0] == [];
    assert EmptyCells<nat>(4) == [None, None, None, None];
    assert Refill(4, hash, first) == Place(EmptyCells(4), 4, 0, 0) == [Some(0), None, None, None];
    assert Refill(4, hash, full) == Place([Some(0), None, None, None], 4, 2, 2);
  }

  /** 3, probed from 3 % 2 = 1, lands in slot 1; its home under four slots, slot 3, stays empty. */
  lemma StaleHomeAfterInsert()
    ensures Place([Some(0), None, Some(2), None], 4, 1, 3) == [Some(0), Some(3), Some(2), None]
    ensures !IsTaken([Some(0), Some(3), Some(2), None], 3 % 4)
  {
    assert IsFree([Some(0), None, Some(2), None], 1);
  }

  /**
   * Identity hash, two growable slots holding 0 and 2: inserting 3 grows
   * the table to four slots, but 3 is probed from slot 3 % 2 = 1 and lands
   * there, while its home under four slots, slot 3, stays empty. A lookup
   * of 3 then stops at that empty slot and answers none.
   */
  method StaleHomeAfterGrowth() returns (stored: bool, found: Option<nat>)
    ensures stored && found == None
  {
    var t := new HashTable<nat>(2, true, n => n);
    StaleHomeBeforeGrowth();
    StaleHomeGrowth(t.hash);
    StaleHomeAfterInsert();
    var _ := t.Insert(0);
    assert t.cells == [Some(0), None];
    var _ := t.Insert(2);
    assert t.cells == [Some(0), Some(2)] && t.Size() == t.capacity == 2;
    var _ := t.Insert(3);
    assert t.capacity == 4 && t.cells == [Some(0), Some(3), Some(2), None];
    assert HashFunction(t.hash, 3, t.capacity) == 3;
    stored := Some(3) in t.cells;
    found := t.Get(3);
  }

  /** The same inserts with the home slot computed after growth: 3 is found. */
  method RehomedAfterGrowth() returns (found: Option<nat>)
    ensures found == Some(3)
  {
    var t := new HashTable<nat>(2, true, n => n);
    var _ := t.InsertRehomed(0);
    var _ := t.InsertRehomed(2);
    var _ := t.InsertRehomed(3);
    found := t.Get(3);
  }

  /** The 26 one-letter texts "a" to "z". */
  function Alphabet(): (s: seq<string>)
    ensures |s| == 26 && forall j :: 0 <= j < 26 ==> s[j] == Letter(j)
  {
    seq(26, j requires 0 <= j < 26 => Letter(j))
  }

  /** Inserts the 26 letters with the home slot computed after growth. */
  method InsertLettersRehomed(t: HashTable<string>)
    requires t.Valid() && t.Intact() && t.growable && t.capacity > 0 && t.Findable()
    requires Elements(t.cells) == multiset{}
    modifies t
    ensures t.Valid() && t.Intact() && t.capacity > 0 && t.Findable()
    ensures Elements(t.cells) == multiset(Alphabet())
  {
    ghost var letters := Alphabet();
    for i := 0 to 26
      invariant t.Valid() && t.Intact() && t.growable && t.capacity > 0 && t.Findable()
      invariant Elements(t.cells) == multiset(letters[..i])
    {
      assert letters[..i + 1] == letters[..i] + [Letter(i)];
      var _ := t.InsertRehomed(Letter(i));
    }
    assert letters[..26] == letters;
  }

  /** Once the table holds exactly the alphabet and every home slot is taken, each letter is found. */
  lemma LetterIsFound(t: HashTable<string>, i: nat)
    requires i < 26 && t.capacity > 0 && t.Intact() && t.Findable()
    requires Elements(t.cells) == multiset(Alphabet())
    ensures t.Get(Letter(i)) == Some(Letter(i))
  {
    assert Alphabet()[i] in multiset(Alphabet());
    ElementsHold(t.cells, Letter(i));
    t.StoredIsFound(Letter(i));
  }

  /** Looks up every letter in a table that holds exactly the alphabet with every home slot taken. */
  method LookUpLetters(t: HashTable<string>) returns (found: seq<Option<string>>)
    requires t.capacity > 0 && t.Intact() && t.Findable()
    requires Elements(t.cells) == multiset(Alphabet())
    ensures |found| == 26 && forall j :: 0 <= j < 26 ==> found[j] == Some(Letter(j))
  {
    found := [];
    for i := 0 to 26
      invariant |found| == i && forall j :: 0 <= j < i ==> found[j] == Some(Letter(j))
    {
      LetterIsFound(t, i);
      found := found + [t.Get(Letter(i))];
    }
  }

  /** With the home slot computed after growth, all 26 letters are found after growing 10 -> 20 -> 40. */
  method RehomedGrowthKeepsMembership() returns (found: seq<Option<string>>)
    ensures |found| == 26 && forall j :: 0 <= j < 26 ==> found[j] == Some(Letter(j))
  {
    var t := new HashTable<string>(10, true, CodePointSum);
    InsertLettersRehomed(t);
    found := LookUpLetters(t);
  }

  /**
   * A table of one slot that may not grow: after inserting and removing
   * 5 the slot sequence is empty but the capacity is still 1, so the table
   * has size 0 yet is not empty, and inserting 5 again would read past
   * the end of the slots.
   */
  method RemoveShortensSlots() returns (size: nat, empty: bool, ghost insertPanics: bool)
    ensures size == 0 && !empty && insertPanics
  {
    var t := new HashTable<nat>(1, false, n => n);
    var _ := t.Insert(5);
    ElementsHold(t.cells, 5);
    var r := t.Remove(5);
    size := t.Size();
    empty := t.IsEmpty();
    insertPanics := !t.InsertInRange(5);
  }

  /** The same with the slot emptied in place: the table is empty again. */
  method ClearingKeepsSlots() returns (size: nat, empty: bool)
    ensures size == 0 && empty
  {
    var t := new HashTable<nat>(1, false, n => n);
    var _ := t.Insert(5);
    ElementsHold(t.cells, 5);
    var r := t.RemoveClearing(5);
    size := t.Size();
    empty := t.IsEmpty();
  }
}
