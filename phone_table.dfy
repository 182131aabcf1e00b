/** The `phone` table as a sequence of rows in insertion order, and the
    three things the handlers do with it: read one contact's numbers,
    delete every row of one contact, and append rows for one contact. */
module PhoneTable {

  import opened Records

  /** The numbers of `owner`'s phones, in table order (the relationship
      `Contact.phones`). */
  function NumbersOf(rows: seq<PhoneRow>, owner: nat): seq<string>
  {
    if rows == [] then []
    else
      var last := rows[|rows| - 1];
      NumbersOf(rows[..|rows| - 1], owner) + (if last.owner == owner then [last.number] else [])
  }

  /** The table after deleting every phone of `owner`: the cascade of a
      contact delete, and the bulk `filter_by(contact_id=...).delete()`. */
  function WithoutOwner(rows: seq<PhoneRow>, owner: nat): seq<PhoneRow>
  {
    if rows == [] then []
    else
      var last := rows[|rows| - 1];
      WithoutOwner(rows[..|rows| - 1], owner) + (if last.owner == owner then [] else [last])
  }

  /** One new row per number, all owned by `owner`. */
  function RowsFor(owner: nat, numbers: seq<string>): seq<PhoneRow>
  {
    if numbers == [] then []
    else RowsFor(owner, numbers[..|numbers| - 1]) + [PhoneRow(numbers[|numbers| - 1], owner)]
  }

  /** Every row belongs to one of `owners`: no orphan phones. */
  ghost predicate OwnedBy(rows: seq<PhoneRow>, owners: set<nat>) {
    forall i :: 0 <= i < |rows| ==> rows[i].owner in owners
  }

  lemma OwnedByAppend(rows: seq<PhoneRow>, more: seq<PhoneRow>, owners: set<nat>)
    requires OwnedBy(rows, owners) && OwnedBy(more, owners)
    ensures OwnedBy(rows + more, owners)
  {
    forall i | 0 <= i < |rows + more|
      ensures (rows + more)[i].owner in owners
    {
      if i >= |rows| {
        assert (rows + more)[i] == more[i - |rows|];
      }
    }
  }

  lemma {:induction false} NumbersOfAppend(rows: seq<PhoneRow>, more: seq<PhoneRow>, owner: nat)
    ensures NumbersOf(rows + more, owner) == NumbersOf(rows, owner) + NumbersOf(more, owner)
    decreases |more|
  {
    if more != [] {
      var all := rows + more;
      assert all[..|all| - 1] == rows + more[..|more| - 1];
      NumbersOfAppend(rows, more[..|more| - 1], owner);
    } else {
      assert rows + more == rows;
    }
  }

  /** A contact none of whose rows are present has no numbers. */
  lemma {:induction false} NumbersOfAbsent(rows: seq<PhoneRow>, owner: nat)
    requires forall i :: 0 <= i < |rows| ==> rows[i].owner != owner
    ensures NumbersOf(rows, owner) == []
    decreases |rows|
  {
    if rows != [] {
      NumbersOfAbsent(rows[..|rows| - 1], owner);
    }
  }

  /** Appended rows carry exactly the given numbers, and only for their owner. */
  lemma {:induction false} NumbersOfRowsFor(owner: nat, numbers: seq<string>, other: nat)
    ensures NumbersOf(RowsFor(owner, numbers), other) == if other == owner then numbers else []
    decreases |numbers|
  {
    if numbers != [] {
      var init := numbers[..|numbers| - 1];
      var rows := RowsFor(owner, numbers);
      assert rows[..|rows| - 1] == RowsFor(owner, init);
      NumbersOfRowsFor(owner, init, other);
      if other == owner {
        assert init + [numbers[|numbers| - 1]] == numbers;
      }
    }
  }

  /** Deleting one owner's rows removes all of its numbers and keeps every
      other owner's numbers as they were. */
  lemma {:induction false} NumbersOfWithoutOwner(rows: seq<PhoneRow>, owner: nat, other: nat)
    ensures NumbersOf(WithoutOwner(rows, owner), other) == if other == owner then [] else NumbersOf(rows, other)
    decreases |rows|
  {
    if rows != [] {
      var init := rows[..|rows| - 1];
      var last := rows[|rows| - 1];
      NumbersOfWithoutOwner(init, owner, other);
      var kept := if last.owner == owner then [] else [last];
      NumbersOfAppend(WithoutOwner(init, owner), kept, other);
      if kept != [] {
        assert [last][..0] == [];
      }
    }
  }

  /** Deleting one owner's rows keeps every other row's owner. */
  lemma {:induction false} WithoutOwnerOwnedBy(rows: seq<PhoneRow>, owners: set<nat>, owner: nat)
    requires OwnedBy(rows, owners)
    ensures OwnedBy(WithoutOwner(rows, owner), owners - {owner})
    decreases |rows|
  {
    if rows != [] {
      var init := rows[..|rows| - 1];
      WithoutOwnerOwnedBy(init, owners, owner);
    }
  }

  lemma {:induction false} RowsForOwnedBy(owner: nat, numbers: seq<string>)
    ensures OwnedBy(RowsFor(owner, numbers), {owner}) && |RowsFor(owner, numbers)| == |numbers|
    decreases |numbers|
  {
    if numbers != [] {
      RowsForOwnedBy(owner, numbers[..|numbers| - 1]);
    }
  }

  /** The effect of replacing an owner's phones: that owner's numbers are
      exactly the new ones, every other owner's are unchanged. */
  lemma ReplaceNumbers(rows: seq<PhoneRow>, owner: nat, numbers: seq<string>, other: nat)
    ensures NumbersOf(WithoutOwner(rows, owner) + RowsFor(owner, numbers), other)
         == if other == owner then numbers else NumbersOf(rows, other)
  {
    NumbersOfAppend(WithoutOwner(rows, owner), RowsFor(owner, numbers), other);
    NumbersOfWithoutOwner(rows, owner, other);
    NumbersOfRowsFor(owner, numbers, other);
  }

  /** Replacing an owner's phones keeps the foreign key and changes the
      numbers of that owner only. */
  lemma ReplacePhones(rows: seq<PhoneRow>, owners: set<nat>, owner: nat, numbers: seq<string>)
    requires OwnedBy(rows, owners) && owner in owners
    ensures OwnedBy(WithoutOwner(rows, owner) + RowsFor(owner, numbers), owners)
    ensures forall other :: NumbersOf(WithoutOwner(rows, owner) + RowsFor(owner, numbers), other)
                            == if other == owner then numbers else NumbersOf(rows, other)
  {
    WithoutOwnerOwnedBy(rows, owners, owner);
    RowsForOwnedBy(owner, numbers);
    OwnedByAppend(WithoutOwner(rows, owner), RowsFor(owner, numbers), owners);
    forall other
      ensures NumbersOf(WithoutOwner(rows, owner) + RowsFor(owner, numbers), other)
              == if other == owner then numbers else NumbersOf(rows, other)
    {
      ReplaceNumbers(rows, owner, numbers, other);
    }
  }
}
