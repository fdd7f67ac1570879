/** A contact: a name that never changes, a list of phones edited in place
    and an optional birthday. */
module Records {
  import opened Wrappers
  import opened Calendar
  import opened Fields
  import opened Strings

  /** Index of the first phone whose text is v, or |ps| when there is none. */
  function IndexOf(ps: seq<Phone>, v: string): (i: nat)
    ensures i <= |ps|
    ensures i < |ps| ==> ps[i].value == v
    ensures forall k :: 0 <= k < i ==> ps[k].value != v
  {
    if ps == [] then 0 else if ps[0].value == v then 0 else 1 + IndexOf(ps[1..], v)
  }

  predicate HasPhone(ps: seq<Phone>, v: string) {
    exists k :: 0 <= k < |ps| && ps[k].value == v
  }

  /** The list after removing the first phone with text v (list.remove):
      either nothing changes or exactly one copy of that phone is gone. */
  function RemoveFirst(ps: seq<Phone>, v: string): (r: seq<Phone>)
    ensures r == ps || (|r| == |ps| - 1 && multiset(r) == multiset(ps) - multiset{Phone(v)})
  {
    var i := IndexOf(ps, v);
    if i < |ps| then
      RemoveAt(ps, i);
      assert ps[i] == Phone(v);
      ps[..i] + ps[i + 1..]
    else ps
  }

  /** The list after putting Phone(w) in place of the first phone with text
      v: same length, and any position that changed now holds Phone(w). */
  function ReplaceFirst(ps: seq<Phone>, v: string, w: string): (r: seq<Phone>)
    ensures |r| == |ps|
    ensures forall k :: 0 <= k < |ps| && r[k] != ps[k] ==> r[k] == Phone(w)
  {
    var i := IndexOf(ps, v);
    if i < |ps| then ps[i := Phone(w)] else ps
  }

  function PhoneTexts(ps: seq<Phone>): (ts: seq<string>)
    ensures |ts| == |ps|
    ensures forall k :: 0 <= k < |ps| ==> ts[k] == ps[k].value
  {
    seq(|ps|, k requires 0 <= k < |ps| => ps[k].value)
  }

  /** "; ".join of the phone texts: phone k stands at offset 12 * k and
      every phone but the last is followed by "; ", so the list can be read
      back from the text. */
  function PhonesText(ps: seq<Phone>): (s: string)
    requires forall k :: 0 <= k < |ps| ==> ValidPhone(ps[k].value)
    ensures ps != [] ==> |s| == 12 * |ps| - 2
    ensures ps == [] ==> s == ""
    ensures forall k :: 0 <= k < |ps| ==> s[12 * k..12 * k + 10] == ps[k].value
    ensures forall k :: 0 <= k < |ps| - 1 ==> s[12 * k..12 * k + 12] == ps[k].value + "; "
  {
    var ts := PhoneTexts(ps);
    assert forall i :: 0 <= i < |ts| ==> |ts[i]| == 10 by {
      forall i | 0 <= i < |ts| ensures |ts[i]| == 10 {
        assert ValidPhone(ps[i].value);
      }
    }
    forall k | 0 <= k < |ps|
      ensures |Join(ts, "; ")| == 12 * |ps| - 2
      ensures Join(ts, "; ")[12 * k..12 * k + 10] == ps[k].value
      ensures k < |ps| - 1 ==> Join(ts, "; ")[12 * k..12 * k + 12] == ps[k].value + "; "
    {
      JoinFixedWidth(ts, "; ", k);
    }
    Join(ts, "; ")
  }

  /** str(self.birthday): an ISO date, or "None" when no birthday is set. */
  function BirthdayText(b: Option<Birthday>): (s: string)
    requires b.Some? ==> ValidDate(b.value.value)
    ensures s == "None" <==> b.None?
    ensures b.Some? ==> |s| == 10 && s[4] == '-' && s[7] == '-'
  {
    if b.Some? then IsoText(b.value.value) else "None"
  }

  /** Two birthdays (or their absence) print the same only when they are
      the same. */
  lemma BirthdayTextNamesOneBirthday(a: Option<Birthday>, b: Option<Birthday>)
    requires a.Some? ==> ValidDate(a.value.value)
    requires b.Some? ==> ValidDate(b.value.value)
    ensures BirthdayText(a) == BirthdayText(b) <==> a == b
  {
    if BirthdayText(a) == BirthdayText(b) && a.Some? && b.Some? {
      var x, y := a.value.value, b.value.value;
      DigitsValuePad4(x.year);
      DigitsValuePad4(y.year);
      DigitsValuePad2(x.month);
      DigitsValuePad2(y.month);
      DigitsValuePad2(x.day);
      DigitsValuePad2(y.day);
    }
  }

  /** Removing the first match takes out exactly one copy of that phone and
      keeps every other phone, in order; with no match nothing changes. */
  lemma {:induction false} RemoveFirstFacts(ps: seq<Phone>, v: string)
    ensures HasPhone(ps, v) <==> IndexOf(ps, v) < |ps|
    ensures !HasPhone(ps, v) ==> RemoveFirst(ps, v) == ps
    ensures HasPhone(ps, v) ==>
      var i, r := IndexOf(ps, v), RemoveFirst(ps, v);
      |r| == |ps| - 1
      && (forall k :: 0 <= k < i ==> r[k] == ps[k])
      && (forall k :: i <= k < |r| ==> r[k] == ps[k + 1])
      && multiset(r) == multiset(ps) - multiset{Phone(v)}
  {
    var i := IndexOf(ps, v);
    if i < |ps| {
      RemoveAt(ps, i);
      assert ps[i] == Phone(v);
    } else {
      assert !HasPhone(ps, v);
    }
  }

  /** Taking out position i keeps the others in order and removes one copy
      of the element there. */
  lemma RemoveAt<T>(s: seq<T>, i: nat)
    requires i < |s|
    ensures var r := s[..i] + s[i + 1..];
      |r| == |s| - 1
      && (forall k :: 0 <= k < i ==> r[k] == s[k])
      && (forall k :: i <= k < |r| ==> r[k] == s[k + 1])
      && multiset(r) == multiset(s) - multiset{s[i]}
  {
    assert s == s[..i] + [s[i]] + s[i + 1..];
  }

  /** Editing the first match keeps the length and every other position;
      with no match nothing changes. */
  lemma ReplaceFirstFacts(ps: seq<Phone>, v: string, w: string)
    ensures |ReplaceFirst(ps, v, w)| == |ps|
    ensures !HasPhone(ps, v) ==> ReplaceFirst(ps, v, w) == ps
    ensures HasPhone(ps, v) ==>
      var i, r := IndexOf(ps, v), ReplaceFirst(ps, v, w);
      r[i] == Phone(w) && ps[i].value == v
      && (forall k :: 0 <= k < |ps| && k != i ==> r[k] == ps[k])
      && (forall k :: 0 <= k < i ==> r[k].value != v)
  {
    RemoveFirstFacts(ps, v);
  }

  class Record {
    const name: Name
    var phones: seq<Phone>
    var birthday: Option<Birthday>

    /** What construction and the operations below maintain. */
    ghost predicate Valid()
      reads this
    {
      name.value != []
      && (forall k :: 0 <= k < |phones| ==> ValidPhone(phones[k].value))
      && (birthday.Some? ==> ValidDate(birthday.value.value))
    }

    /** Record(name) for a name Name accepts. */
    constructor (n: string)
      requires n != []
      ensures Valid()
      ensures name == Name(n) && phones == [] && birthday == None
    {
      name := Name(n);
      phones := [];
      birthday := None;
    }

    /** add_phone: appends a valid number; an invalid one is reported and
        the list stays as it was. */
    method AddPhone(p: string) returns (ok: bool)
      requires Valid()
      modifies this`phones
      ensures Valid()
      ensures ok <==> ValidPhone(p)
      ensures phones == if ok then old(phones) + [Phone(p)] else old(phones)
    {
      var r := MakePhone(p);
      ok := r.Ok?;
      if ok {
        phones := phones + [r.value];
      }
    }

    /** remove_phone: scans for the first phone equal to p and removes it. */
    method RemovePhone(p: string) returns (removed: bool)
      requires Valid()
      modifies this`phones
      ensures Valid()
      ensures removed <==> HasPhone(old(phones), p)
      ensures phones == RemoveFirst(old(phones), p)
    {
      var i := 0;
      while i < |phones|
        invariant 0 <= i <= |phones|
        invariant phones == old(phones)
        invariant forall k :: 0 <= k < i ==> phones[k].value != p
      {
        if phones[i].value == p {
          phones := phones[..i] + phones[i + 1..];
          return true;
        }
        i := i + 1;
      }
      return false;
    }

    /** edit_phone: at the first phone equal to oldP, a valid newP replaces
        it in place; an invalid newP is reported and the scan goes on, so
        the call then fails without changing anything. */
    method EditPhone(oldP: string, newP: string) returns (ok: bool)
      requires Valid()
      modifies this`phones
      ensures Valid()
      ensures ok <==> HasPhone(old(phones), oldP) && ValidPhone(newP)
      ensures phones == if ok then ReplaceFirst(old(phones), oldP, newP) else old(phones)
    {
      var i := 0;
      while i < |phones|
        invariant 0 <= i <= |phones|
        invariant phones == old(phones)
        invariant ValidPhone(newP) ==> forall k :: 0 <= k < i ==> phones[k].value != oldP
      {
        if phones[i].value == oldP {
          var r := MakePhone(newP);
          if r.Ok? {
            phones := phones[i := r.value];
            return true;
          }
        }
        i := i + 1;
      }
      return false;
    }

    /** find_phone: the first phone equal to p, if any. */
    method FindPhone(p: string) returns (r: Option<Phone>)
      ensures r.Some? <==> HasPhone(phones, p)
      ensures r.Some? ==> r.value.value == p && r.value == phones[IndexOf(phones, p)]
    {
      var i := 0;
      while i < |phones|
        invariant 0 <= i <= |phones|
        invariant forall k :: 0 <= k < i ==> phones[k].value != p
      {
        if phones[i].value == p {
          return Some(phones[i]);
        }
        i := i + 1;
      }
      return None;
    }

    /** add_birthday: a date Birthday accepts replaces the old birthday; an
        invalid text is reported and the old birthday stays. */
    method AddBirthday(text: string) returns (ok: bool)
      requires Valid()
      modifies this`birthday
      ensures Valid()
      ensures ok <==> ParseBirthday(text).Ok?
      ensures birthday == if ok then Some(ParseBirthday(text).value) else old(birthday)
    {
      var r := ParseBirthday(text);
      ok := r.Ok?;
      if ok {
        birthday := Some(r.value);
      }
    }

    /** show_bd: the birthday as "Date of birthday DD.MM.YYYY"; the date
        text reads back as the stored birthday. */
    function ShowBd(): (s: string)
      reads this
      requires Valid() && birthday.Some?
      ensures |s| == 27 && s[..17] == "Date of birthday "
      ensures AllDigits(s[17..19])
      ensures ParseBirthday(s[17..]) == Ok(birthday.value)
    {
      var d := birthday.value.value;
      BirthdayTextRoundTrip(d);
      DigitsValuePad2(d.day);
      assert ("Date of birthday " + DayMonthYearText(d))[17..19] == DayMonthYearText(d)[..2];
      assert ("Date of birthday " + DayMonthYearText(d))[17..] == DayMonthYearText(d);
      "Date of birthday " + DayMonthYearText(d)
    }

    /** The text before the phone list in str(record). */
    function Heading(): string
      reads this
    {
      "Contact name: " + name.value + ", phones: "
    }

    /** str(record): the contact's name, the ", phones: " label, the phones
        joined by "; " and the birthday, with nothing else in between
        (TextFixedByLayout shows these facts fix the text). */
    function Text(): (t: string)
      reads this
      requires Valid()
      ensures Occurs(t, "Contact name: " + name.value, 0)
      ensures Occurs(t, ", phones: ", |"Contact name: " + name.value|)
      ensures Occurs(t, PhonesText(phones), |Heading()|)
      ensures var tail := ", birthday: " + BirthdayText(birthday);
        |t| == |Heading()| + |PhonesText(phones)| + |tail| && t[|t| - |tail|..] == tail
    {
      var h, j, tail := Heading(), PhonesText(phones), ", birthday: " + BirthdayText(birthday);
      var lead := "Contact name: " + name.value;
      SliceOfPrefix(h + j, tail, 0, |lead|);
      SliceOfPrefix(h, j, 0, |lead|);
      SliceOfPrefix(lead, ", phones: ", 0, |lead|);
      assert lead[0..|lead|] == lead;
      SliceOfPrefix(h + j, tail, |lead|, |h|);
      SliceOfPrefix(h, j, |lead|, |h|);
      SliceOfSuffix(lead, ", phones: ", 0, 10);
      SliceOfPrefix(h + j, tail, |h|, |h| + |j|);
      SliceOfSuffix(h, j, 0, |j|);
      assert j[0..|j|] == j;
      SliceOfSuffix(h + j, tail, 0, |tail|);
      assert tail[0..|tail|] == tail;
      h + j + tail
    }
  }

  /** Record(name): an empty name raises before any record exists. */
  method NewRecord(n: string) returns (r: Result<Record>)
    ensures r.Ok? <==> n != []
    ensures r.Err? ==> r.error == NameError
    ensures r.Ok? ==>
      fresh(r.value) && r.value.Valid()
      && r.value.name == Name(n) && r.value.phones == [] && r.value.birthday == None
  {
    var checked := MakeName(n);
    if checked.Err? {
      return Err(checked.error);
    }
    var rec := new Record(n);
    return Ok(rec);
  }

  /** A text laid out as Text() promises is str(record): the name, the
      label, the phones and the birthday leave no character unfixed. */
  lemma TextFixedByLayout(rec: Record, t: string)
    requires rec.Valid()
    requires Occurs(t, "Contact name: " + rec.name.value, 0)
    requires Occurs(t, ", phones: ", |"Contact name: " + rec.name.value|)
    requires Occurs(t, PhonesText(rec.phones), |rec.Heading()|)
    requires var tail := ", birthday: " + BirthdayText(rec.birthday);
      |t| == |rec.Heading()| + |PhonesText(rec.phones)| + |tail| && t[|t| - |tail|..] == tail
    ensures t == rec.Text()
  {
    var lead, j := "Contact name: " + rec.name.value, PhonesText(rec.phones);
    var tail := ", birthday: " + BirthdayText(rec.birthday);
    var a, b, c := |lead|, |rec.Heading()|, |rec.Heading()| + |j|;
    AdjacentSlices(t, 0, a, b);
    AdjacentSlices(t, 0, b, c);
    AdjacentSlices(t, 0, c, |t|);
    assert t[0..|t|] == t;
    assert t == lead + ", phones: " + j + tail;
  }

  /** str(record) shows every phone: phone k stands at offset 12 * k after
      the heading, ten characters long. */
  lemma RecordTextShowsPhones(rec: Record, k: nat)
    requires rec.Valid() && k < |rec.phones|
    ensures |rec.Text()| >= |rec.Heading()| + 12 * |rec.phones| - 2
    ensures var h := |rec.Heading()|;
      rec.Text()[h + 12 * k..h + 12 * k + 10] == rec.phones[k].value
  {
    var h, j := rec.Heading(), PhonesText(rec.phones);
    var tail := ", birthday: " + BirthdayText(rec.birthday);
    assert rec.Text() == h + j + tail;
    SliceOfMiddle(h, j, tail, 12 * k, 12 * k + 10);
  }

}
