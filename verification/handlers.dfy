/** The command handlers: each takes the words after the command and the
    store, and returns the line the assistant prints. Exceptions that the
    input_error decorator turns into text are modelled by the message they
    carry. */
module Handlers {
  import opened Wrappers
  import opened Calendar
  import opened Fields
  import opened Strings
  import opened Records
  import opened Book

  /** A parsed input line: the lower-cased command word and the other words. */
  datatype Command = Command(name: string, args: seq<string>)

  const UnpackError: string := "not enough values to unpack (expected at least 1, got 0)"
  const AddUsage: string := "Invalid command format. Please use: add [name] [phone]"
  const PhoneUsage: string := "Invalid command format. Please use: phone [name]"
  const BirthdayUsage: string := "Invalid command format. Please use: birthday [name] [DD.MM.YYYY]"
  const ShowBirthdayUsage: string := "Invalid command format. Please use: show-birthday [name]"
  const NotFound: string := "Contact not found."
  const NoPhones: string := "No phone numbers found for this contact."
  const NoBirthday: string := "Birthday not found for this contact."
  const NoContacts: string := "No contacts saved yet."
  const Added: string := "Contact added."

  function AlreadyExists(name: string): string {
    "Contact with name '" + name + "' already exists."
  }

  function BirthdayAdded(date: string, name: string): string {
    "Birthday " + date + " added to contact " + name
  }

  /** parse_input: split the line on whitespace; the first word, lower-cased,
      is the command. A blank line has no first word to unpack. */
  function ParseInput(line: string): (r: Result<Command>)
    ensures r.Err? <==> forall k :: 0 <= k < |line| ==> IsSpace(line[k])
    ensures r.Err? ==> r.error == UnpackError
    ensures r.Ok? ==>
      r.value.name != [] && (forall k :: 0 <= k < |r.value.name| ==> !('A' <= r.value.name[k] <= 'Z'))
      && forall i :: 0 <= i < |r.value.args| ==> IsWord(r.value.args[i])
  {
    var words := Split(line);
    if words == [] then Err(UnpackError)
    else Ok(Command(Lower(words[0]), words[1..]))
  }

  /** A command typed as words separated by single spaces parses back into
      its lower-cased command word and the same arguments. */
  lemma ParseInputRoundTrip(cmd: string, args: seq<string>)
    requires IsWord(cmd) && forall i :: 0 <= i < |args| ==> IsWord(args[i])
    ensures ParseInput(Join([cmd] + args, " ")) == Ok(Command(Lower(cmd), args))
  {
    var words := [cmd] + args;
    forall i | 0 <= i < |words|
      ensures IsWord(words[i])
    {
      if i > 0 {
        assert words[i] == args[i - 1];
      }
    }
    SplitJoin(words);
    assert Split(Join(words, " ")) == words;
    assert words[0] == cmd && words[1..] == args;
  }

  /** add_contact: with exactly a name and a phone, adds a new contact whose
      phone list holds the phone if it is valid and is empty otherwise; an
      existing name is refused and left as it was. */
  method AddContact(args: seq<string>, book: AddressBook) returns (msg: string)
    requires book.Valid()
    modifies book
    ensures book.Valid()
    ensures |args| != 2 ==>
      msg == AddUsage && book.keys == old(book.keys) && book.data == old(book.data)
    ensures |args| == 2 && args[0] in old(book.data) ==>
      msg == AlreadyExists(args[0]) && book.keys == old(book.keys) && book.data == old(book.data)
    ensures |args| == 2 && args[0] == [] && args[0] !in old(book.data) ==>
      msg == NameError && book.keys == old(book.keys) && book.data == old(book.data)
    ensures |args| == 2 && args[0] != [] && args[0] !in old(book.data) ==>
      msg == Added
      && book.keys == old(book.keys) + [args[0]]
      && args[0] in book.data && fresh(book.data[args[0]])
      && book.data == old(book.data)[args[0] := book.data[args[0]]]
      && book.data[args[0]].phones == (if ValidPhone(args[1]) then [Phone(args[1])] else [])
      && book.data[args[0]].birthday == None
  {
    if |args| != 2 {
      return AddUsage;
    }
    var name, phone := args[0], args[1];
    if book.Find(name).Some? {
      return AlreadyExists(name);
    }
    var created := NewRecord(name);
    if created.Err? {
      return created.error;
    }
    var record := created.value;
    var _ := record.AddPhone(phone);
    book.AddRecord(record);
    return Added;
  }

  /** show_phone: the phones of the named contact joined by "; ", each
      readable at its own offset. */
  function ShowPhone(args: seq<string>, book: AddressBook): (msg: string)
    reads book, book.data.Values
    requires book.Valid()
    ensures |args| != 1 ==> msg == PhoneUsage
    ensures |args| == 1 && args[0] !in book.data ==> msg == NotFound
    ensures |args| == 1 && args[0] in book.data && book.data[args[0]].phones == [] ==> msg == NoPhones
    ensures |args| == 1 && args[0] in book.data && book.data[args[0]].phones != [] ==>
      var ps := book.data[args[0]].phones;
      |msg| == 12 * |ps| - 2
      && (forall k :: 0 <= k < |ps| ==> msg[12 * k..12 * k + 10] == ps[k].value)
      && (forall k :: 0 <= k < |ps| - 1 ==> msg[12 * k..12 * k + 12] == ps[k].value + "; ")
  {
    if |args| != 1 then PhoneUsage
    else
      match book.Find(args[0])
      case None => NotFound
      case Some(record) =>
        if record.phones == [] then NoPhones else PhonesText(record.phones)
  }

  /** add_birthday: for an existing contact, a date Birthday accepts becomes
      its birthday; the reply claims success even when the date was refused
      and nothing changed. */
  method AddBirthday(args: seq<string>, book: AddressBook) returns (msg: string)
    requires book.Valid()
    modifies book.data.Values
    ensures book.Valid()
    ensures forall k :: k in book.data ==> book.data[k].phones == old(book.data[k].phones)
    ensures forall k :: k in book.data && (|args| != 2 || k != args[0]) ==>
      book.data[k].birthday == old(book.data[k].birthday)
    ensures |args| != 2 ==> msg == BirthdayUsage
    ensures |args| == 2 && args[0] !in book.data ==> msg == NotFound
    ensures |args| == 2 && args[0] in book.data ==>
      msg == BirthdayAdded(args[1], args[0])
      && book.data[args[0]].birthday ==
         if ParseBirthday(args[1]).Ok? then Some(ParseBirthday(args[1]).value)
         else old(book.data[args[0]].birthday)
  {
    if |args| != 2 {
      return BirthdayUsage;
    }
    var name, date := args[0], args[1];
    var found := book.Find(name);
    if found.Some? {
      var _ := found.value.AddBirthday(date);
      return BirthdayAdded(date, name);
    }
    return NotFound;
  }

  /** show_birthday: the named contact's birthday as "Date of birthday
      DD.MM.YYYY", whose date text reads back as the stored birthday. */
  function ShowBirthday(args: seq<string>, book: AddressBook): (msg: string)
    reads book, book.data.Values
    requires book.Valid()
    ensures |args| != 1 ==> msg == ShowBirthdayUsage
    ensures |args| == 1 && args[0] !in book.data ==> msg == NotFound
    ensures |args| == 1 && args[0] in book.data && book.data[args[0]].birthday.None? ==> msg == NoBirthday
    ensures |args| == 1 && args[0] in book.data && book.data[args[0]].birthday.Some? ==>
      |msg| == 27 && msg[..17] == "Date of birthday " && AllDigits(msg[17..19])
      && ParseBirthday(msg[17..]) == Ok(book.data[args[0]].birthday.value)
  {
    if |args| != 1 then ShowBirthdayUsage
    else
      match book.Find(args[0])
      case None => NotFound
      case Some(record) =>
        if record.birthday.None? then NoBirthday else record.ShowBd()
  }

  /** str(record) for each key, in order. */
  function TextsOf(ks: seq<string>, d: map<string, Record>): (ts: seq<string>)
    reads d.Values
    requires forall i :: 0 <= i < |ks| ==> ks[i] in d && d[ks[i]].Valid()
    ensures |ts| == |ks|
    ensures forall i :: 0 <= i < |ks| ==> ts[i] == d[ks[i]].Text()
  {
    seq(|ks|, i reads d.Values requires 0 <= i < |ks| && ks[i] in d && d[ks[i]].Valid() => d[ks[i]].Text())
  }

  /** show_all: one line per contact in store order, or a notice when the
      store is empty. The text is every record's str() in store order,
      joined by newlines, so it starts with the first record's text. */
  function ShowAll(book: AddressBook): (msg: string)
    reads book, book.data.Values
    requires book.Valid()
    ensures msg == NoContacts <==> book.data == map[]
    ensures book.keys != [] ==>
      var first := book.data[book.keys[0]].Text();
      |first| <= |msg| && msg[..|first|] == first
    ensures book.keys != [] ==> LaidOut(msg, TextsOf(book.keys, book.data), "\n")
  {
    if book.data == map[] then NoContacts
    else
      assert book.keys != [] by {
        var k :| k in book.data;
      }
      var ts := TextsOf(book.keys, book.data);
      JoinStartsWithFirst(ts, "\n");
      JoinLayout(ts, "\n");
      assert ts[0][0] == 'C';
      Join(ts, "\n")
  }
}
