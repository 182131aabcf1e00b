/** The contact directory service: the `contact` and `phone` tables held in
    memory, and one method per request handler. Each handler's JSON reply
    and status code become a `Reply`. */
module Directory {

  import opened Wrappers
  import opened Records
  import opened PhoneTable
  import opened Groups
  import opened Birthdays

  class ContactStore {
    /** The `contact` table, keyed by id. */
    var contacts: map<nat, ContactRow>
    /** The `phone` table, in insertion order. */
    var phones: seq<PhoneRow>

    /** The foreign key `phone.contact_id`: every phone belongs to a
        stored contact. */
    ghost predicate Valid()
      reads this
    {
      OwnedBy(phones, contacts.Keys)
    }

    constructor ()
      ensures Valid() && contacts == map[] && phones == []
    {
      contacts := map[];
      phones := [];
    }

    /** The contact object of a stored id, phones included. */
    function View(id: nat): Contact
      reads this
      requires id in contacts
    {
      var row := contacts[id];
      Contact(id, row.name, row.email, row.address, row.birthDate, row.group, NumbersOf(phones, id))
    }

    /** The id the store assigns to a new row: one past the largest in use,
        as SQLite does for an integer primary key; callers rely only on its
        being unused. */
    method NextRowId() returns (id: nat)
      ensures id !in contacts && id >= 1
    {
      id := 1;
      var rest := contacts.Keys;
      while rest != {}
        invariant rest <= contacts.Keys && id >= 1
        invariant forall k :: k in contacts && k !in rest ==> k < id
        decreases |rest|
      {
        var k :| k in rest;
        if k >= id {
          id := k + 1;
        }
        rest := rest - {k};
      }
    }

    /** `get_contacts`: every stored contact exactly once, in an order the
        store chooses. */
    method GetContacts() returns (r: seq<Contact>)
      ensures |r| == |contacts|
      ensures forall i :: 0 <= i < |r| ==> r[i].id in contacts && r[i] == View(r[i].id)
      ensures forall id :: id in contacts ==> exists i :: 0 <= i < |r| && r[i].id == id
      ensures forall i, j :: 0 <= i < j < |r| ==> r[i].id != r[j].id
    {
      r := [];
      var rest := contacts.Keys;
      while rest != {}
        invariant rest <= contacts.Keys
        invariant |r| + |rest| == |contacts|
        invariant forall i :: 0 <= i < |r| ==> r[i].id in contacts && r[i].id !in rest && r[i] == View(r[i].id)
        invariant forall id :: id in contacts && id !in rest ==> exists i :: 0 <= i < |r| && r[i].id == id
        invariant forall i, j :: 0 <= i < j < |r| ==> r[i].id != r[j].id
        decreases |rest|
      {
        var id :| id in rest;
        ghost var before := r;
        r := r + [View(id)];
        rest := rest - {id};
        forall k | k in contacts && k !in rest
          ensures exists i :: 0 <= i < |r| && r[i].id == k
        {
          if k == id {
            assert r[|r| - 1].id == k;
          } else {
            var i :| 0 <= i < |before| && before[i].id == k;
            assert r[i].id == k;
          }
        }
      }
    }

    /** `get_contact`: the contact, or 500 when the id is unknown (the
        NotFound of `get_or_404` is caught by the handler's
        `except Exception`). */
    method GetContact(id: nat) returns (r: Reply<Contact>)
      ensures id in contacts ==> r == Ok(View(id))
      ensures id !in contacts ==> r == ServerError
    {
      if id in contacts {
        r := Ok(View(id));
      } else {
        r := ServerError;
      }
    }

    /** `add_contact`. `body` is `None` when `request.get_json()` yields no
        JSON object. The contact row is committed before its phones are
        added; `phoneCommitFails` says whether the second commit fails, in
        which case the rollback drops only the phones. */
    method AddContact(body: Option<ContactBody>, phoneCommitFails: bool) returns (r: Reply<()>)
      requires Valid()
      modifies this
      ensures Valid()
      ensures body.None? ==> r == ServerError && contacts == old(contacts) && phones == old(phones)
      ensures body.Some? && !HasRequiredFields(body.value) ==>
        r == BadRequest && contacts == old(contacts) && phones == old(phones)
      ensures body.Some? && HasRequiredFields(body.value) && !phoneCommitFails ==>
        && r.Created? && r.id !in old(contacts)
        && contacts == old(contacts)[r.id := InsertedRow(body.value)]
        && phones == old(phones) + RowsFor(r.id, body.value.phones.v)
        && multiset(View(r.id).phones) == multiset(body.value.phones.v)
        && forall other :: other in old(contacts) ==> View(other) == old(View(other))
      ensures body.Some? && HasRequiredFields(body.value) && phoneCommitFails ==>
        && r == ServerError && phones == old(phones)
        && exists id :: id !in old(contacts) && contacts == old(contacts)[id := InsertedRow(body.value)]
                        && View(id).phones == []
    {
      if body.None? {
        return ServerError;
      }
      var b := body.value;
      if !HasRequiredFields(b) {
        return BadRequest;
      }
      var id := NextRowId();
      contacts := contacts[id := InsertedRow(b)];
      var numbers := b.phones.v;
      var pending: seq<PhoneRow> := [];
      var i := 0;
      while i < |numbers|
        invariant 0 <= i <= |numbers|
        invariant pending == RowsFor(id, numbers[..i])
        invariant contacts == old(contacts)[id := InsertedRow(b)] && phones == old(phones)
      {
        assert numbers[..i + 1][..i] == numbers[..i];
        pending := pending + [PhoneRow(numbers[i], id)];
        i := i + 1;
      }
      assert numbers[..i] == numbers;
      forall j | 0 <= j < |old(phones)|
        ensures old(phones)[j].owner != id
      {
      }
      NumbersOfAbsent(old(phones), id);
      if phoneCommitFails {
        r := ServerError;
      } else {
        phones := phones + pending;
        r := Created(id);
        RowsForOwnedBy(id, numbers);
        NumbersOfAppend(old(phones), pending, id);
        NumbersOfRowsFor(id, numbers, id);
        forall other | other in old(contacts)
          ensures NumbersOf(phones, other) == NumbersOf(old(phones), other)
        {
          NumbersOfAppend(old(phones), pending, other);
          NumbersOfRowsFor(id, numbers, other);
        }
      }
    }

    /** `update_contact`: the id is looked up before the body is read or
        checked, so an unknown id is a 500 whatever the body. On success
        every scalar column is overwritten and the contact's phones are
        replaced by the new list. */
    method UpdateContact(id: nat, body: Option<ContactBody>) returns (r: Reply<()>)
      requires Valid()
      modifies this
      ensures Valid()
      ensures id !in old(contacts) || body.None? ==>
        r == ServerError && contacts == old(contacts) && phones == old(phones)
      ensures id in old(contacts) && body.Some? && !HasRequiredFields(body.value) ==>
        r == BadRequest && contacts == old(contacts) && phones == old(phones)
      ensures id in old(contacts) && body.Some? && HasRequiredFields(body.value) ==>
        && r == Ok(())
        && contacts == old(contacts)[id := RowFromBody(body.value)]
        && phones == WithoutOwner(old(phones), id) + RowsFor(id, body.value.phones.v)
        && multiset(View(id).phones) == multiset(body.value.phones.v)
        && forall other :: other in old(contacts) && other != id ==> View(other) == old(View(other))
    {
      if id !in contacts {
        return ServerError;
      }
      if body.None? {
        return ServerError;
      }
      var b := body.value;
      if !HasRequiredFields(b) {
        return BadRequest;
      }
      contacts := contacts[id := RowFromBody(b)];
      phones := WithoutOwner(phones, id);
      var numbers := b.phones.v;
      AppendPhones(id, numbers);
      r := Ok(());
      ReplacePhones(old(phones), old(contacts).Keys, id, numbers);
    }

    /** The loop adding one phone row per number for contact `id`. */
    method AppendPhones(id: nat, numbers: seq<string>)
      modifies this
      ensures phones == old(phones) + RowsFor(id, numbers)
      ensures contacts == old(contacts)
    {
      var i := 0;
      while i < |numbers|
        invariant 0 <= i <= |numbers|
        invariant phones == old(phones) + RowsFor(id, numbers[..i])
        invariant contacts == old(contacts)
      {
        assert numbers[..i + 1][..i] == numbers[..i];
        phones := phones + [PhoneRow(numbers[i], id)];
        i := i + 1;
      }
      assert numbers[..i] == numbers;
    }

    /** `delete_contact`: removes the contact and, by the cascade on
        `Contact.phones`, every phone it owns; an unknown id is a 500. */
    method DeleteContact(id: nat) returns (r: Reply<()>)
      requires Valid()
      modifies this
      ensures Valid()
      ensures id !in old(contacts) ==> r == ServerError && contacts == old(contacts) && phones == old(phones)
      ensures id in old(contacts) ==>
        && r == Ok(())
        && contacts == old(contacts) - {id}
        && phones == WithoutOwner(old(phones), id)
        && (forall i :: 0 <= i < |phones| ==> phones[i].owner != id)
        && forall other :: other in contacts ==> View(other) == old(View(other))
    {
      if id !in contacts {
        return ServerError;
      }
      WithoutOwnerOwnedBy(phones, contacts.Keys, id);
      forall other | other in contacts && other != id
        ensures NumbersOf(WithoutOwner(phones, id), other) == NumbersOf(phones, other)
      {
        NumbersOfWithoutOwner(phones, id, other);
      }
      contacts := contacts - {id};
      phones := WithoutOwner(phones, id);
      r := Ok(());
    }

    /** `get_groups`: every non-empty group in use, once each. */
    method GetGroups() returns (r: seq<string>)
      ensures NoDuplicates(r)
      ensures forall g :: g in r <==> g != [] && exists id :: id in contacts && contacts[id].group == Some(g)
    {
      var listing := GetContacts();
      var column := seq(|listing|, i requires 0 <= i < |listing| => listing[i].group);
      r := DistinctGroups(column);
      DistinctGroupsCorrect(column);
      forall g
        ensures Some(g) in column <==> exists id :: id in contacts && contacts[id].group == Some(g)
      {
        if id :| id in contacts && contacts[id].group == Some(g) {
          var i :| 0 <= i < |listing| && listing[i].id == id;
          assert column[i] == Some(g);
        }
      }
    }

    /** `get_upcoming_birthdays` at the instant `now`: the contacts whose
        next birthday is in the window, ordered by `birth_date[5:]`. */
    method GetUpcomingBirthdays(now: Now) returns (r: seq<Entry>)
      requires ValidNow(now)
      ensures SortedByKey(r)
      ensures forall e :: e in r <==>
        exists id :: id in contacts && IsUpcoming(View(id), now) && e == EntryOf(View(id))
      ensures exists cs: seq<Contact> ::
        && |cs| == |contacts|
        && (forall i :: 0 <= i < |cs| ==> cs[i].id in contacts && cs[i] == View(cs[i].id))
        && (forall i, j :: 0 <= i < j < |cs| ==> cs[i].id != cs[j].id)
        && r == UpcomingBirthdays(cs, now)
    {
      var listing := GetContacts();
      r := UpcomingBirthdays(listing, now);
      UpcomingBirthdaysCorrect(listing, now);
      forall e
        ensures e in r <==> exists id :: id in contacts && IsUpcoming(View(id), now) && e == EntryOf(View(id))
      {
        if id :| id in contacts && IsUpcoming(View(id), now) && e == EntryOf(View(id)) {
          var i :| 0 <= i < |listing| && listing[i].id == id;
          assert listing[i] in listing;
        }
        if e in r {
          var c :| c in listing && IsUpcoming(c, now) && e == EntryOf(c);
          var i :| 0 <= i < |listing| && listing[i] == c;
          assert c == View(c.id);
        }
      }
    }
  }
}
