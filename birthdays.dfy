/** The upcoming-birthdays view: which contacts it lists, given the stored
    contacts and the value of `datetime.now()`, and the order it lists them in. */
module Birthdays {

  import opened Wrappers
  import opened Calendar
  import opened Records

  const MicrosPerDay: int := 86_400_000_000

  /** The value of `datetime.now()`: a date and the microseconds elapsed
      since its midnight. */
  datatype Now = Now(date: Date, micros: int)

  predicate ValidNow(now: Now) {
    ValidDate(now.date) && 0 <= now.micros < MicrosPerDay
  }

  /** `d < now` for the midnight of `d`: datetimes compare on the date
      first and then on the time of day. */
  predicate BeforeNow(d: Date, now: Now) {
    DateLess(d, now.date) || (d == now.date && now.micros > 0)
  }

  /** This year's occurrence of the birthday, or next year's when this
      year's is strictly before now; `None` when the date to be built
      does not exist (a 29 February outside a leap year, or year 10000). */
  function NextBirthday(born: Date, now: Now): (r: Option<Date>)
    ensures r.Some? ==> ValidDate(r.value)
  {
    match MakeDate(now.date.year, born.month, born.day)
    case None => None
    case Some(thisYear) =>
      if BeforeNow(thisYear, now) then MakeDate(now.date.year + 1, born.month, born.day)
      else Some(thisYear)
  }

  /** The next occurrence of a stored birth date, or `None` when the
      contact is skipped: no birth date, an empty one, or a ValueError. */
  function NextOccurrence(birthDate: Option<string>, now: Now): (r: Option<Date>)
    ensures r.Some? ==> ValidDate(r.value)
  {
    if birthDate.None? || birthDate.value == [] then None
    else
      match ParseIsoDate(birthDate.value)
      case None => None
      case Some(born) => NextBirthday(born, now)
  }

  /** Whole calendar days from the date of `now` to `d`. */
  function CalendarGap(d: Date, now: Now): int
    requires ValidDate(d) && ValidNow(now)
  {
    Ordinal(d) - Ordinal(now.date)
  }

  /** `(next - now).days`: a timedelta's `days` is the floor of its length
      in days, and Dafny's `/` by a positive divisor is that floor. */
  function DaysDiff(next: Date, now: Now): int
    requires ValidDate(next) && ValidNow(now)
  {
    (CalendarGap(next, now) * MicrosPerDay - now.micros) / MicrosPerDay
  }

  /** A contact is listed when its next occurrence exists and
      `0 <= days_diff <= 30`. */
  predicate IsUpcoming(c: Contact, now: Now)
    requires ValidNow(now)
  {
    var next := NextOccurrence(c.birthDate, now);
    next.Some? && 0 <= DaysDiff(next.value, now) <= 30
  }

  /** One element of the reply. */
  datatype Entry = Entry(id: nat, name: string, birthDate: string, phones: seq<string>)

  function EntryOf(c: Contact): Entry
    requires c.birthDate.Some?
  {
    Entry(c.id, c.name, c.birthDate.value, c.phones)
  }

  /** The loop over the contacts: the listed ones, in store order. */
  function Selected(cs: seq<Contact>, now: Now): seq<Entry>
    requires ValidNow(now)
  {
    if cs == [] then []
    else (if IsUpcoming(cs[0], now) then [EntryOf(cs[0])] else []) + Selected(cs[1..], now)
  }

  // ---------------------------------------------------------------------
  // Sorting on `birth_date[5:]`

  /** The sort key `birth_date[5:]` (a Python slice, empty when the string
      is shorter). */
  function SortKey(e: Entry): string {
    if |e.birthDate| < 5 then [] else e.birthDate[5..]
  }

  /** Python's `a <= b` on strings: code point by code point, a proper
      prefix first. */
  predicate StrLe(a: string, b: string) {
    a == [] || (b != [] && (a[0] < b[0] || (a[0] == b[0] && StrLe(a[1..], b[1..]))))
  }

  lemma {:induction false} StrLeReflexive(a: string)
    ensures StrLe(a, a)
  {
    if a != [] {
      StrLeReflexive(a[1..]);
    }
  }

  lemma {:induction false} StrLeTotal(a: string, b: string)
    ensures StrLe(a, b) || StrLe(b, a)
  {
    if a != [] && b != [] && a[0] == b[0] {
      StrLeTotal(a[1..], b[1..]);
    }
  }

  lemma {:induction false} StrLeTransitive(a: string, b: string, c: string)
    requires StrLe(a, b) && StrLe(b, c)
    ensures StrLe(a, c)
  {
    if a != [] && b != [] && c != [] && a[0] == b[0] == c[0] {
      StrLeTransitive(a[1..], b[1..], c[1..]);
    }
  }

  lemma {:induction false} StrLeAntisymmetric(a: string, b: string)
    requires StrLe(a, b) && StrLe(b, a)
    ensures a == b
  {
    if a != [] && b != [] {
      StrLeAntisymmetric(a[1..], b[1..]);
      assert a == [a[0]] + a[1..] && b == [b[0]] + b[1..];
    }
  }

  ghost predicate SortedByKey(s: seq<Entry>) {
    forall i, j :: 0 <= i < j < |s| ==> StrLe(SortKey(s[i]), SortKey(s[j]))
  }

  /** The entries of `s` whose key is `k`, in order. */
  function WithKey(s: seq<Entry>, k: string): seq<Entry> {
    if s == [] then []
    else (if SortKey(s[0]) == k then [s[0]] else []) + WithKey(s[1..], k)
  }

  /** Puts `e` before the first entry whose key is not smaller than its own. */
  function Insert(e: Entry, s: seq<Entry>): seq<Entry> {
    if s == [] || StrLe(SortKey(e), SortKey(s[0])) then [e] + s
    else [s[0]] + Insert(e, s[1..])
  }

  /** `list.sort(key=...)`: Python's sort is stable, and any stable sort
      yields this insertion sort's result (see `StableSortIsUnique`). */
  function SortByKey(s: seq<Entry>): seq<Entry> {
    if s == [] then [] else Insert(s[0], SortByKey(s[1..]))
  }

  lemma {:induction false} InsertPermutes(e: Entry, s: seq<Entry>)
    ensures multiset(Insert(e, s)) == multiset(s) + multiset{e}
  {
    if s != [] && !StrLe(SortKey(e), SortKey(s[0])) {
      InsertPermutes(e, s[1..]);
      assert s == [s[0]] + s[1..];
    }
  }

  lemma {:induction false} InsertSorted(e: Entry, s: seq<Entry>)
    requires SortedByKey(s)
    ensures SortedByKey(Insert(e, s))
  {
    if s == [] {
    } else if StrLe(SortKey(e), SortKey(s[0])) {
      forall j | 0 < j < |s|
        ensures StrLe(SortKey(e), SortKey(s[j]))
      {
        StrLeTransitive(SortKey(e), SortKey(s[0]), SortKey(s[j]));
      }
    } else {
      var t := Insert(e, s[1..]);
      InsertSorted(e, s[1..]);
      InsertPermutes(e, s[1..]);
      StrLeTotal(SortKey(e), SortKey(s[0]));
      forall j | 0 <= j < |t|
        ensures StrLe(SortKey(s[0]), SortKey(t[j]))
      {
        assert t[j] in multiset(t);
        if t[j] != e {
          assert t[j] in multiset(s[1..]);
          var k :| 0 <= k < |s[1..]| && s[1..][k] == t[j];
          assert s[k + 1] == t[j];
        }
      }
    }
  }

  /** The entries of key `k` in a sequence with a given first entry. */
  lemma WithKeyCons(x: Entry, t: seq<Entry>, k: string)
    ensures WithKey([x] + t, k) == (if SortKey(x) == k then [x] else []) + WithKey(t, k)
  {
    assert ([x] + t)[1..] == t;
  }

  /** An entry that goes after `x` has a key different from `x`'s. */
  lemma KeysDifferAfter(e: Entry, x: Entry)
    requires !StrLe(SortKey(e), SortKey(x))
    ensures SortKey(e) != SortKey(x)
  {
    StrLeReflexive(SortKey(e));
  }

  lemma SwapDisjoint(a: seq<Entry>, b: seq<Entry>, rest: seq<Entry>)
    requires a == [] || b == []
    ensures a + (b + rest) == b + (a + rest)
  {
  }

  /** Inserting `e` places it before every entry of its own key. */
  lemma {:induction false} InsertWithKey(e: Entry, s: seq<Entry>, k: string)
    ensures WithKey(Insert(e, s), k) == (if SortKey(e) == k then [e] else []) + WithKey(s, k)
  {
    var mine: seq<Entry> := if SortKey(e) == k then [e] else [];
    if s == [] || StrLe(SortKey(e), SortKey(s[0])) {
      WithKeyCons(e, s, k);
    } else {
      var t := Insert(e, s[1..]);
      var head: seq<Entry> := if SortKey(s[0]) == k then [s[0]] else [];
      WithKeyCons(s[0], t, k);
      InsertWithKey(e, s[1..], k);
      KeysDifferAfter(e, s[0]);
      assert s == [s[0]] + s[1..];
      WithKeyCons(s[0], s[1..], k);
      SwapDisjoint(head, mine, WithKey(s[1..], k));
    }
  }

  /** The sort orders by key, keeps the entries, and keeps the store order
      of entries with equal keys. */
  lemma {:induction false} SortByKeyCorrect(s: seq<Entry>)
    ensures SortedByKey(SortByKey(s))
    ensures multiset(SortByKey(s)) == multiset(s)
    ensures forall k :: WithKey(SortByKey(s), k) == WithKey(s, k)
  {
    if s != [] {
      SortByKeyCorrect(s[1..]);
      InsertSorted(s[0], SortByKey(s[1..]));
      InsertPermutes(s[0], SortByKey(s[1..]));
      assert s == [s[0]] + s[1..];
      forall k ensures WithKey(SortByKey(s), k) == WithKey(s, k) {
        InsertWithKey(s[0], SortByKey(s[1..]), k);
      }
    }
  }

  lemma {:induction false} WithKeyHead(s: seq<Entry>)
    requires s != []
    ensures WithKey(s, SortKey(s[0])) != [] && WithKey(s, SortKey(s[0]))[0] == s[0]
  {
  }

  /** An entry among those of key `k` has key `k` and belongs to `s`. */
  lemma {:induction false} WithKeyMember(s: seq<Entry>, k: string, x: Entry)
    requires x in WithKey(s, k)
    ensures SortKey(x) == k && x in s
  {
    if s != [] && x != s[0] {
      WithKeyMember(s[1..], k, x);
    } else if s != [] && SortKey(s[0]) != k {
      WithKeyMember(s[1..], k, x);
    }
  }

  /** Sorted by key with every key's entries in a given order: there is
      exactly one such sequence, so every stable sort agrees with `SortByKey`. */
  lemma {:induction false} StableSortIsUnique(a: seq<Entry>, b: seq<Entry>)
    requires SortedByKey(a) && SortedByKey(b)
    requires forall k :: WithKey(a, k) == WithKey(b, k)
    ensures a == b
    decreases |a| + |b|
  {
    if a == [] && b != [] {
      WithKeyHead(b);
    } else if a != [] && b == [] {
      WithKeyHead(a);
    } else if a != [] {
      var ka, kb := SortKey(a[0]), SortKey(b[0]);
      WithKeyHead(a);
      WithKeyHead(b);
      if ka != kb {
        // b holds an entry of key ka after its head, and a one of key kb
        assert a[0] in WithKey(b, ka);
        WithKeyMember(b, ka, a[0]);
        var j :| 0 <= j < |b| && b[j] == a[0];
        assert b[0] in WithKey(a, kb);
        WithKeyMember(a, kb, b[0]);
        var i :| 0 <= i < |a| && a[i] == b[0];
        assert StrLe(kb, ka) && StrLe(ka, kb);
        StrLeAntisymmetric(ka, kb);
      }
      assert a[0] == b[0];
      forall k ensures WithKey(a[1..], k) == WithKey(b[1..], k) {
        var head := if SortKey(a[0]) == k then [a[0]] else [];
        assert WithKey(a, k) == head + WithKey(a[1..], k) && WithKey(b, k) == head + WithKey(b[1..], k);
        assert WithKey(a[1..], k) == WithKey(a, k)[|head|..];
        assert WithKey(b[1..], k) == WithKey(b, k)[|head|..];
      }
      StableSortIsUnique(a[1..], b[1..]);
      assert a == [a[0]] + a[1..] && b == [b[0]] + b[1..];
    }
  }

  /** The reply of `get_upcoming_birthdays`. */
  function UpcomingBirthdays(cs: seq<Contact>, now: Now): seq<Entry>
    requires ValidNow(now)
  {
    SortByKey(Selected(cs, now))
  }

  // ---------------------------------------------------------------------
  // Which contacts are listed

  lemma {:induction false} SelectedMembers(cs: seq<Contact>, now: Now)
    requires ValidNow(now)
    ensures forall e :: e in Selected(cs, now) <==> exists c :: c in cs && IsUpcoming(c, now) && e == EntryOf(c)
  {
    if cs != [] {
      SelectedMembers(cs[1..], now);
      assert forall c :: c in cs <==> c == cs[0] || c in cs[1..];
    }
  }

  /** `timedelta.days` of a gap of whole days minus a time of day. */
  lemma FloorDays(gap: int, t: int)
    requires 0 <= t < MicrosPerDay
    ensures (gap * MicrosPerDay - t) / MicrosPerDay == if t == 0 then gap else gap - 1
  {
    if t > 0 {
      assert gap * MicrosPerDay - t == (gap - 1) * MicrosPerDay + (MicrosPerDay - t);
    }
  }

  /** The next occurrence is not before now, so it is at least one day
      ahead unless now is exactly midnight; `days_diff` is one less than
      the calendar gap unless now is exactly midnight. */
  lemma NextBirthdayGap(born: Date, now: Now)
    requires ValidNow(now) && NextBirthday(born, now).Some?
    ensures var next := NextBirthday(born, now).value;
      && CalendarGap(next, now) >= (if now.micros == 0 then 0 else 1)
      && DaysDiff(next, now) == (if now.micros == 0 then CalendarGap(next, now) else CalendarGap(next, now) - 1)
  {
    var next := NextBirthday(born, now).value;
    OrdinalMonotone(now.date, next);
    FloorDays(CalendarGap(next, now), now.micros);
  }

  /** The next occurrence carries the birthday's month and day, is not
      before now, and no occurrence not before now comes in an earlier year. */
  lemma NextBirthdayIsEarliest(born: Date, now: Now)
    requires ValidNow(now) && NextBirthday(born, now).Some?
    ensures var next := NextBirthday(born, now).value;
      && next.month == born.month && next.day == born.day
      && !BeforeNow(next, now)
      && forall y :: ValidDate(Date(y, born.month, born.day)) && !BeforeNow(Date(y, born.month, born.day), now) ==> next.year <= y
  {
  }

  /** The `0 <=` half of the window test never fails. */
  lemma DaysDiffNonNegative(born: Date, now: Now)
    requires ValidNow(now) && NextBirthday(born, now).Some?
    ensures DaysDiff(NextBirthday(born, now).value, now) >= 0
  {
    NextBirthdayGap(born, now);
  }

  /** The effective window in calendar days: 0 to 30 days ahead at exactly
      midnight, and 1 to 31 days ahead at any other time of day. */
  lemma UpcomingWindow(c: Contact, now: Now)
    requires ValidNow(now)
    ensures IsUpcoming(c, now) <==>
      var next := NextOccurrence(c.birthDate, now);
      next.Some? && CalendarGap(next.value, now) <= (if now.micros == 0 then 30 else 31)
  {
    var next := NextOccurrence(c.birthDate, now);
    if next.Some? {
      NextBirthdayGap(ParseIsoDate(c.birthDate.value).value, now);
    }
  }

  /** Same month and day in consecutive years are at least 364 days apart. */
  lemma {:induction false} DaysBeforeMonthAcrossYears(y: int, y': int, m: int)
    requires 1 <= m <= 13
    ensures DaysBeforeMonth(y, m) <= DaysBeforeMonth(y', m) + (if m > 2 then 1 else 0)
  {
    if m > 1 {
      DaysBeforeMonthAcrossYears(y, y', m - 1);
    }
  }

  /** A birthday that falls today is listed only at exactly midnight; a
      moment later it counts as passed and rolls over to next year. */
  lemma BirthdayTodayOnlyAtMidnight(born: Date, now: Now)
    requires ValidNow(now) && born.month == now.date.month && born.day == now.date.day
    ensures now.micros == 0 ==> NextBirthday(born, now) == Some(now.date) && DaysDiff(now.date, now) == 0
    ensures now.micros > 0 && NextBirthday(born, now).Some? ==>
      NextBirthday(born, now).value.year == now.date.year + 1 && DaysDiff(NextBirthday(born, now).value, now) > 30
  {
    if now.micros == 0 {
      FloorDays(0, 0);
    } else if NextBirthday(born, now).Some? {
      var next := NextBirthday(born, now).value;
      var y := now.date.year;
      DaysBeforeYearStep(y);
      DaysInYear(y);
      DaysBeforeMonthAcrossYears(y, y + 1, born.month);
      NextBirthdayGap(born, now);
    }
  }

  /** A 29 February birthday is skipped in every year that is not a leap year. */
  lemma LeapDaySkipped(born: Date, now: Now)
    requires ValidNow(now) && born.month == 2 && born.day == 29 && !IsLeapYear(now.date.year)
    ensures NextBirthday(born, now) == None
  {
  }

  /** The listed entries are exactly those of the contacts in the window,
      sorted by `birth_date[5:]`, with ties in store order. */
  lemma UpcomingBirthdaysCorrect(cs: seq<Contact>, now: Now)
    requires ValidNow(now)
    ensures var r := UpcomingBirthdays(cs, now);
      && SortedByKey(r)
      && (forall e :: e in r <==> exists c :: c in cs && IsUpcoming(c, now) && e == EntryOf(c))
      && multiset(r) == multiset(Selected(cs, now))
      && forall k :: WithKey(r, k) == WithKey(Selected(cs, now), k)
  {
    SortByKeyCorrect(Selected(cs, now));
    SelectedMembers(cs, now);
    var r := UpcomingBirthdays(cs, now);
    forall e ensures e in r <==> e in Selected(cs, now) {
      assert e in r <==> e in multiset(r);
    }
  }

  // ---------------------------------------------------------------------
  // Worked cases

  /** On 2024-06-01, at any time of day: a birthday on 06-15 is listed, one
      on 05-01 has passed and is eleven months away, and an unparsable
      birth date is skipped without failing the request. */
  lemma WindowExamples(c: Contact, micros: int)
    requires 0 <= micros < MicrosPerDay
    ensures c.birthDate == Some("2024-06-15") ==> IsUpcoming(c, Now(Date(2024, 6, 1), micros))
    ensures c.birthDate == Some("2024-05-01") ==> !IsUpcoming(c, Now(Date(2024, 6, 1), micros))
    ensures c.birthDate == Some("invalid") ==> !IsUpcoming(c, Now(Date(2024, 6, 1), micros))
  {
    var now := Now(Date(2024, 6, 1), micros);
    if c.birthDate == Some("2024-06-15") {
      assert MonthEnd("2024-06-15") == 7;
      assert "2024-06-15"[..4] == "2024" && "2024-06-15"[5..7] == "06" && "2024-06-15"[8..] == "15";
      assert NextOccurrence(c.birthDate, now) == Some(Date(2024, 6, 15));
      FloorDays(14, micros);
    }
    if c.birthDate == Some("2024-05-01") {
      assert MonthEnd("2024-05-01") == 7;
      assert "2024-05-01"[..4] == "2024" && "2024-05-01"[5..7] == "05" && "2024-05-01"[8..] == "01";
      assert NextOccurrence(c.birthDate, now) == Some(Date(2025, 5, 1));
      DaysBeforeYearStep(2024);
      DaysInYear(2024);
      assert CalendarGap(Date(2025, 5, 1), now) == 334;
      FloorDays(334, micros);
    }
  }

  /** The sort compares `birth_date[5:]` as text, not the next occurrence:
      on 2024-12-15 at noon a 12-20 birthday (4 days on) is listed after a
      01-05 one (20 days on, in the next year). */
  lemma SortByTextExample(a: Contact, b: Contact)
    requires a.birthDate == Some("1990-12-20") && b.birthDate == Some("1985-01-05")
    ensures var now := Now(Date(2024, 12, 15), MicrosPerDay / 2);
      && DaysDiff(Date(2024, 12, 20), now) == 4
      && DaysDiff(Date(2025, 1, 5), now) == 20
      && UpcomingBirthdays([a, b], now) == [EntryOf(b), EntryOf(a)]
  {
    var now := Now(Date(2024, 12, 15), MicrosPerDay / 2);
    DecemberCase(a, now);
    JanuaryCase(b, now);
    SelectedBoth(a, b, now);
    assert SortKey(EntryOf(a)) == "1990-12-20"[5..] == "12-20";
    assert SortKey(EntryOf(b)) == "1985-01-05"[5..] == "01-05";
    SwapByKey(EntryOf(a), EntryOf(b));
  }

  lemma SelectedBoth(a: Contact, b: Contact, now: Now)
    requires ValidNow(now) && IsUpcoming(a, now) && IsUpcoming(b, now)
    ensures Selected([a, b], now) == [EntryOf(a), EntryOf(b)]
  {
    assert [a, b][1..] == [b];
    assert Selected([b], now) == [EntryOf(b)] + Selected([], now);
  }

  lemma SwapByKey(x: Entry, y: Entry)
    requires SortKey(x) == "12-20" && SortKey(y) == "01-05"
    ensures SortByKey([x, y]) == [y, x]
  {
    assert !StrLe("12-20", "01-05");
    assert [x, y][1..] == [y];
    assert SortByKey([y]) == [y] by {
      assert SortByKey([y]) == Insert(y, SortByKey([]));
    }
    assert Insert(x, [y]) == [y] + Insert(x, []);
  }

  lemma DecemberCase(a: Contact, now: Now)
    requires a.birthDate == Some("1990-12-20") && now == Now(Date(2024, 12, 15), MicrosPerDay / 2)
    ensures DaysDiff(Date(2024, 12, 20), now) == 4 && IsUpcoming(a, now)
  {
    assert MonthEnd("1990-12-20") == 7;
    assert "1990-12-20"[..4] == "1990" && "1990-12-20"[5..7] == "12" && "1990-12-20"[8..] == "20";
    assert NextOccurrence(a.birthDate, now) == Some(Date(2024, 12, 20));
    FloorDays(5, MicrosPerDay / 2);
  }

  lemma JanuaryCase(b: Contact, now: Now)
    requires b.birthDate == Some("1985-01-05") && now == Now(Date(2024, 12, 15), MicrosPerDay / 2)
    ensures DaysDiff(Date(2025, 1, 5), now) == 20 && IsUpcoming(b, now)
  {
    assert MonthEnd("1985-01-05") == 7;
    assert "1985-01-05"[..4] == "1985" && "1985-01-05"[5..7] == "01" && "1985-01-05"[8..] == "05";
    assert NextOccurrence(b.birthDate, now) == Some(Date(2025, 1, 5));
    DaysBeforeYearStep(2024);
    DaysInYear(2024);
    assert CalendarGap(Date(2025, 1, 5), now) == 21;
    FloorDays(21, MicrosPerDay / 2);
  }
}
