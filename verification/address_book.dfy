/** The store: records keyed by the text of their name, iterated in
    insertion order as a Python dict is. */
module Book {
  import opened Wrappers
  import opened Calendar
  import opened Fields
  import opened Records
  import opened Upcoming

  /** ks without n, other keys in their order. */
  function Without(ks: seq<string>, n: string): (r: seq<string>)
    ensures forall x :: x in r <==> x in ks && x != n
    ensures |r| <= |ks|
  {
    if ks == [] then []
    else if ks[0] == n then Without(ks[1..], n)
    else [ks[0]] + Without(ks[1..], n)
  }

  /** Removing a key that occurs once keeps the others in their order: the
      keys before it stay, the keys after it move up by one. */
  lemma {:induction false} WithoutAt(ks: seq<string>, i: nat)
    requires i < |ks|
    requires forall p, q :: 0 <= p < q < |ks| ==> ks[p] != ks[q]
    ensures Without(ks, ks[i]) == ks[..i] + ks[i + 1..]
  {
    if i > 0 {
      WithoutAt(ks[1..], i - 1);
      assert ks[1..][..i - 1] + ks[1..][i..] == ks[1..i] + ks[i + 1..];
      assert ks[..i] == [ks[0]] + ks[1..i];
    } else {
      WithoutAbsent(ks[1..], ks[0]);
    }
  }

  lemma {:induction false} WithoutAbsent(ks: seq<string>, n: string)
    requires n !in ks
    ensures Without(ks, n) == ks
  {
    if ks != [] {
      WithoutAbsent(ks[1..], n);
    }
  }

  /** The entries get_upcoming_birthdays reads, in iteration order. */
  function EntriesOf(ks: seq<string>, d: map<string, Record>): (es: seq<Entry>)
    reads d.Values
    requires forall i :: 0 <= i < |ks| ==> ks[i] in d && d[ks[i]].Valid()
    ensures |es| == |ks|
    ensures forall i :: 0 <= i < |ks| ==>
      es[i] == Entry(d[ks[i]].name.value, BirthdayDate(d[ks[i]].birthday))
    ensures EntriesValid(es)
  {
    var es := seq(|ks|, i reads d.Values requires 0 <= i < |ks| && ks[i] in d =>
      Entry(d[ks[i]].name.value, BirthdayDate(d[ks[i]].birthday)));
    assert forall i :: 0 <= i < |ks| ==> EntryValid(es[i]) by {
      forall i | 0 <= i < |ks|
        ensures EntryValid(es[i])
      {
        assert d[ks[i]].Valid();
      }
    }
    es
  }

  function BirthdayDate(b: Option<Birthday>): Option<Date> {
    if b.Some? then Some(b.value.value) else None
  }

  /** The order lists every key of the map exactly once. */
  predicate KeysMatch(ks: seq<string>, d: map<string, Record>) {
    (forall p, q :: 0 <= p < q < |ks| ==> ks[p] != ks[q])
    && (forall i :: 0 <= i < |ks| ==> ks[i] in d)
    && (forall k :: k in d ==> k in ks)
  }

  /** Every record is stored under the text of its own name. */
  ghost predicate RecordsValid(d: map<string, Record>)
    reads d.Values
  {
    forall k :: k in d ==> d[k].name.value == k && d[k].Valid()
  }

  class AddressBook {
    /** The dict's keys in insertion order. */
    var keys: seq<string>
    var data: map<string, Record>

    ghost predicate Valid()
      reads this, data.Values
    {
      KeysMatch(keys, data) && RecordsValid(data)
    }

    /** AddressBook() with no initial data. */
    constructor ()
      ensures Valid() && keys == [] && data == map[]
    {
      keys := [];
      data := map[];
    }

    /** add_record: stores r under its name, replacing any record with that
        name; a new name goes to the end of the order, an existing one keeps
        its place. */
    method AddRecord(r: Record)
      requires Valid() && r.Valid()
      modifies this
      ensures Valid()
      ensures data == old(data)[r.name.value := r]
      ensures keys == if r.name.value in old(data) then old(keys) else old(keys) + [r.name.value]
      ensures Find(r.name.value) == Some(r)
    {
      var n := r.name.value;
      if n !in data {
        keys := keys + [n];
      }
      data := data[n := r];
    }

    /** find: the record stored under exactly this name. */
    function Find(n: string): (r: Option<Record>)
      reads this, data.Values
      requires Valid()
      ensures r.Some? <==> n in keys
      ensures r.Some? ==> r.value in data.Values && r.value.name.value == n && r.value.Valid()
    {
      if n in data then Some(data[n]) else None
    }

    /** delete: removes the entry for n if there is one; every other entry
        keeps its record and its place. */
    method Delete(n: string)
      requires Valid()
      modifies this
      ensures Valid()
      ensures data == old(data) - {n}
      ensures keys == Without(old(keys), n)
      ensures n !in old(data) ==> keys == old(keys) && data == old(data)
    {
      if n in data {
        keys := Without(keys, n);
        data := data - {n};
      } else {
        WithoutAbsent(keys, n);
        assert data - {n} == data;
      }
      KeysWithout(old(keys), old(data), n);
    }

    /** The entries in iteration order. */
    function Entries(): (es: seq<Entry>)
      reads this, data.Values
      requires Valid()
      ensures EntriesValid(es)
      ensures |es| == |keys|
      ensures forall i :: 0 <= i < |es| ==> es[i].name == keys[i]
    {
      EntriesOf(keys, data)
    }

    /** get_upcoming_birthdays, with the reference date as a parameter:
        walks the records in order and appends a greeting for each birthday
        0 to 7 days ahead; an exception from a date operation ends it. */
    method GetUpcomingBirthdays(today: Date) returns (r: Result<seq<Greeting>>)
      requires Valid() && ValidDate(today)
      ensures r == Collect(Entries(), today)
    {
      r := CollectGreetings(keys, data, today);
    }
  }

  /** The loop of get_upcoming_birthdays over the records stored under ks,
      in that order. */
  method CollectGreetings(ks: seq<string>, d: map<string, Record>, today: Date)
    returns (r: Result<seq<Greeting>>)
    requires forall i :: 0 <= i < |ks| ==> ks[i] in d && d[ks[i]].Valid()
    requires ValidDate(today)
    ensures r == Collect(EntriesOf(ks, d), today)
  {
    ghost var es := EntriesOf(ks, d);
    var upcoming: seq<Greeting> := [];
    var i := 0;
    while i < |ks|
      invariant i <= |ks| == |es|
      invariant Collect(es[..i], today) == Ok(upcoming)
    {
      var user := d[ks[i]];
      var step := GreetingFor(user, today);
      assert step == EntryGreetings(es[i], today);
      CollectExtend(es, i, today);
      if step.Err? {
        CollectPrefixFails(es, i + 1, today);
        return Err(step.error);
      }
      upcoming := upcoming + step.value;
      i := i + 1;
    }
    assert es[..i] == es;
    r := Ok(upcoming);
  }

  /** The body of the loop in get_upcoming_birthdays for one record: move the
      birthday into this year, or the next if it has passed, and if it is 0
      to 7 days away shift it by (7 - weekday) % 7 days. */
  method GreetingFor(user: Record, today: Date) returns (step: Result<seq<Greeting>>)
    requires user.Valid() && ValidDate(today)
    ensures step == EntryGreetings(Entry(user.name.value, BirthdayDate(user.birthday)), today)
  {
    if user.birthday.None? {
      return Ok([]);
    }
    var thisYear := BirthdayThisYear(user.birthday.value.value, today);
    if thisYear.Err? {
      return Err(thisYear.error);
    }
    var days := DaysUntil(thisYear.value, today);
    if 0 <= days <= 7 {
      var congratulation := Shift(thisYear.value, CongratulationShift(thisYear.value));
      if congratulation.Err? {
        return Err(congratulation.error);
      }
      return Ok([Greeting(user.name.value, YearMonthDayText(congratulation.value))]);
    }
    return Ok([]);
  }

  /** The birthday moved into this year, and into the next one when it has
      already passed this year. */
  method BirthdayThisYear(birthday: Date, today: Date) returns (r: Result<Date>)
    requires ValidDate(birthday) && ValidDate(today)
    ensures r == NextOccurrence(birthday, today)
  {
    r := ReplaceYear(birthday, today.year);
    if r.Err? {
      return;
    }
    if Before(r.value, today) {
      r := ReplaceYear(r.value, today.year + 1);
    }
  }

  /** Deleting n from both the order and the map keeps them in step. */
  lemma KeysWithout(ks: seq<string>, d: map<string, Record>, n: string)
    requires KeysMatch(ks, d)
    ensures KeysMatch(Without(ks, n), d - {n})
  {
    var r := Without(ks, n);
    assert forall i :: 0 <= i < |r| ==> r[i] in r;
    DistinctWithout(ks, n);
  }

  lemma {:induction false} DistinctWithout(ks: seq<string>, n: string)
    requires forall p, q :: 0 <= p < q < |ks| ==> ks[p] != ks[q]
    ensures var r := Without(ks, n);
      forall p, q :: 0 <= p < q < |r| ==> r[p] != r[q]
  {
    if ks != [] {
      DistinctWithout(ks[1..], n);
      assert forall j :: 0 <= j < |ks| - 1 ==> ks[1..][j] != ks[0];
      assert ks[0] !in ks[1..];
      assert ks[0] !in Without(ks[1..], n);
    }
  }
}
