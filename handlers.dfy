/** The command handlers (task.py:150-220), each wrapped by `input_error`.
    Each is a pure function from the book's value and the argument list to
    the new value and the reply, and a method that does the same on the
    objects, step by step as the source does. `today` replaces the call to
    `date.today()`. */
module Handlers {
  import opened Wrappers
  import opened Errors
  import opened Calendar
  import opened Fields
  import opened Records
  import opened Upcoming
  import opened Book

  /** `sep.join(parts)`. */
  function Join(sep: string, parts: seq<string>): string {
    if parts == [] then ""
    else if |parts| == 1 then parts[0]
    else Join(sep, parts[..|parts| - 1]) + sep + parts[|parts| - 1]
  }

  /** The record under `name` after it was changed in place: the dictionary
      itself, and so the iteration order, is untouched. */
  function Modify(d: Directory, name: string, c: Contact): Directory
    requires name in d.contacts
  {
    Directory(d.order, d.contacts[name := c])
  }

  /** The book with a fresh record for `name` unless it already has one. */
  function EnsureRecord(d: Directory, name: string): (r: Directory)
    ensures name in r.contacts
  {
    if name in d.contacts then d else Put(d, NewContact(name))
  }

  // ------------------------------------------------- the handlers as values

  /** `add_contact`: find or create the record (the new record is stored
      before the phone is validated), then append the phone unless it is
      empty. */
  function AddContactSpec(d: Directory, args: seq<string>): (r: (Directory, Reply))
    ensures r.1.Said?
    ensures r.0.contacts.Keys == d.contacts.Keys + (if |args| >= 2 then {args[0]} else {})
  {
    if |args| < 2 then (d, InputError(Failure(UnpackError(2, |args|))))
    else
      var name, phone := args[0], args[1];
      var message := if name in d.contacts then "Contact updated." else "Contact added.";
      var d1 := EnsureRecord(d, name);
      if phone == "" then (d1, InputError(Success(message)))
      else match AddPhoneTo(d1.contacts[name], phone)
        case Failure(e) => (d1, InputError(Failure(e)))
        case Success(c) => (Modify(d1, name, c), InputError(Success(message)))
  }

  /** `change_contact`: the record must exist; then `edit_phone`. */
  function ChangeContactSpec(d: Directory, args: seq<string>): (r: (Directory, Reply))
    ensures r.1.Said?
    ensures r.0.order == d.order && r.0.contacts.Keys == d.contacts.Keys
  {
    if |args| < 3 then (d, InputError(Failure(UnpackError(3, |args|))))
    else if args[0] !in d.contacts then (d, InputError(Failure(KeyError)))
    else match EditPhoneIn(d.contacts[args[0]], args[1], args[2])
      case Failure(e) => (d, InputError(Failure(e)))
      case Success(c) => (Modify(d, args[0], c), InputError(Success("Phone updated.")))
  }

  /** `show_phones`. */
  function ShowPhonesSpec(d: Directory, args: seq<string>): (r: Reply)
    ensures r.Said?
    ensures |args| >= 1 && args[0] !in d.contacts ==> r == Said(ContactNotFound)
  {
    if |args| < 1 then InputError(Failure(UnpackError(1, 0)))
    else if args[0] !in d.contacts then InputError(Failure(KeyError))
    else if d.contacts[args[0]].phones == [] then Said("No phones.")
    else Said(Join("; ", d.contacts[args[0]].phones))
  }

  /** `add_birthday`: find or create the record (stored before the date is
      parsed), then set its birthday. */
  function AddBirthdaySpec(d: Directory, args: seq<string>): (r: (Directory, Reply))
    ensures r.1.Said?
    ensures r.0.contacts.Keys == d.contacts.Keys + (if |args| >= 2 then {args[0]} else {})
  {
    if |args| < 2 then (d, InputError(Failure(UnpackError(2, |args|))))
    else
      var name := args[0];
      var d1 := EnsureRecord(d, name);
      match SetBirthday(d1.contacts[name], args[1])
      case Failure(e) => (d1, InputError(Failure(e)))
      case Success(c) => (Modify(d1, name, c), InputError(Success("Birthday added.")))
  }

  /** `show_birthday`. */
  function ShowBirthdaySpec(d: Directory, args: seq<string>): (r: Reply)
    ensures r.Said?
    ensures |args| >= 1 && args[0] !in d.contacts ==> r == Said(ContactNotFound)
  {
    if |args| < 1 then InputError(Failure(UnpackError(1, 0)))
    else if args[0] !in d.contacts then InputError(Failure(KeyError))
    else match d.contacts[args[0]].birthday
      case None => Said("No birthday set.")
      case Some(b) => Said(RenderDate(b))
  }

  /** `Record.__str__`; an em dash stands for no phones or no birthday. */
  function Describe(c: Contact): (r: string)
    ensures |r| > 14 && r[..14] == "Contact name: "
  {
    "Contact name: " + c.name
    + ", phones: " + (if c.phones == [] then "—" else Join("; ", c.phones))
    + ", birthday: " + (match c.birthday case None => "—" case Some(b) => RenderDate(b))
  }

  function DescribeAll(cs: seq<Contact>): (r: seq<string>)
    ensures |r| == |cs|
  {
    if cs == [] then [] else DescribeAll(cs[..|cs| - 1]) + [Describe(cs[|cs| - 1])]
  }

  /** `show_all`. */
  function ShowAllSpec(d: Directory): (r: Reply)
    requires WellFormed(d)
    ensures r.Said?
  {
    if d.contacts == map[] then Said("Address book is empty.")
    else Said(Join("\n", DescribeAll(Listing(d))))
  }

  /** One output line of `birthdays`: a date and the names congratulated on it. */
  datatype Group = Group(date: CalendarDate, names: seq<string>)

  function Names(es: seq<Entry>): (r: seq<string>)
    ensures |r| == |es|
  {
    if es == [] then [] else Names(es[..|es| - 1]) + [es[|es| - 1].name]
  }

  /** Lines 213-215 on a date-sorted list: consecutive entries with the same
      date share one group, names in list order. */
  function Runs(es: seq<Entry>): (r: seq<Group>)
    ensures es == [] <==> r == []
    ensures es != [] ==> r[|r| - 1].date == es[|es| - 1].congratulationDate
  {
    if es == [] then []
    else
      var groups := Runs(es[..|es| - 1]);
      var e := es[|es| - 1];
      if groups != [] && groups[|groups| - 1].date == e.congratulationDate then
        groups[..|groups| - 1] + [Group(e.congratulationDate, groups[|groups| - 1].names + [e.name])]
      else
        groups + [Group(e.congratulationDate, [e.name])]
  }

  function Lines(groups: seq<Group>): (r: seq<string>)
    ensures |r| == |groups|
  {
    if groups == [] then []
    else Lines(groups[..|groups| - 1])
         + [RenderDate(groups[|groups| - 1].date) + ": " + Join(", ", groups[|groups| - 1].names)]
  }

  /** `birthdays`: the scan with the default 7-day window, grouped by date. */
  function BirthdaysSpec(d: Directory, today: CalendarDate): (r: Reply)
    requires WellFormed(d)
    ensures r.Raised? ==> r.exception.OverflowError?
  {
    match UpcomingBirthdays(Listing(d), today, 7)
    case Failure(e) => InputError(Failure(e))
    case Success(upcoming) =>
      if upcoming == [] then Said("No birthdays in the next 7 days.")
      else Said(Join("\n", Lines(Runs(upcoming))))
  }

  // ------------------------------------------------ grouping by date

  lemma NamesAppend(es: seq<Entry>, e: Entry)
    ensures Names(es + [e]) == Names(es) + [e.name]
  {
    assert (es + [e])[..|es|] == es;
  }

  lemma {:induction false} OnDayNone(es: seq<Entry>, k: Date)
    requires forall x :: x in es ==> x.congratulationDate != k
    ensures OnDay(es, k) == []
  {
    if es != [] {
      OnDayNone(es[..|es| - 1], k);
    }
  }

  lemma NamesOnDaySnoc(es: seq<Entry>, e: Entry, k: Date)
    ensures Names(OnDay(es + [e], k))
            == Names(OnDay(es, k)) + (if e.congratulationDate == k then [e.name] else [])
  {
    OnDaySnoc(es, e, k);
    if e.congratulationDate == k {
      NamesAppend(OnDay(es, k), e);
    } else {
      assert OnDay(es, k) + [] == OnDay(es, k);
    }
  }

  /** Group dates strictly ascending. */
  predicate Ascending(groups: seq<Group>) {
    forall i, j :: 0 <= i < j < |groups| ==> Before(groups[i].date, groups[j].date)
  }

  /** Each group names the entries of its date, in list order. */
  predicate NamesMatch(es: seq<Entry>, groups: seq<Group>) {
    forall g :: g in groups ==> g.names == Names(OnDay(es, g.date))
  }

  /** Every entry's date has a group. */
  predicate Covers(es: seq<Entry>, groups: seq<Group>) {
    forall x :: x in es ==> exists g :: g in groups && g.date == x.congratulationDate
  }

  /** The step of `Runs` that adds a name to the last group. */
  lemma ExtendLastGroup(prefix: seq<Entry>, e: Entry, groups: seq<Group>)
    requires groups != [] && groups[|groups| - 1].date == e.congratulationDate
    requires Ascending(groups) && NamesMatch(prefix, groups) && Covers(prefix, groups)
    ensures var k := |groups| - 1;
            var r := groups[..k] + [Group(e.congratulationDate, groups[k].names + [e.name])];
            Ascending(r) && NamesMatch(prefix + [e], r) && Covers(prefix + [e], r)
  {
    var k := |groups| - 1;
    var r := groups[..k] + [Group(e.congratulationDate, groups[k].names + [e.name])];
    assert forall i :: 0 <= i < |r| ==> r[i].date == groups[i].date;
    ExtendLastGroupNames(prefix, e, groups);
    ExtendLastGroupCovers(prefix, e, groups);
  }

  lemma ExtendLastGroupNames(prefix: seq<Entry>, e: Entry, groups: seq<Group>)
    requires groups != [] && groups[|groups| - 1].date == e.congratulationDate
    requires Ascending(groups) && NamesMatch(prefix, groups)
    ensures var k := |groups| - 1;
            NamesMatch(prefix + [e], groups[..k] + [Group(e.congratulationDate, groups[k].names + [e.name])])
  {
    var k := |groups| - 1;
    var r := groups[..k] + [Group(e.congratulationDate, groups[k].names + [e.name])];
    forall g | g in r
      ensures g.names == Names(OnDay(prefix + [e], g.date))
    {
      NamesOnDaySnoc(prefix, e, g.date);
      if g in groups[..k] {
        var i :| 0 <= i < k && groups[..k][i] == g;
        assert groups[i] == g && Before(groups[i].date, groups[k].date);
      } else {
        assert groups[k] in groups;
      }
    }
  }

  lemma ExtendLastGroupCovers(prefix: seq<Entry>, e: Entry, groups: seq<Group>)
    requires groups != [] && groups[|groups| - 1].date == e.congratulationDate
    requires Covers(prefix, groups)
    ensures var k := |groups| - 1;
            Covers(prefix + [e], groups[..k] + [Group(e.congratulationDate, groups[k].names + [e.name])])
  {
    var k := |groups| - 1;
    var r := groups[..k] + [Group(e.congratulationDate, groups[k].names + [e.name])];
    forall x | x in prefix + [e]
      ensures exists g :: g in r && g.date == x.congratulationDate
    {
      if x in prefix {
        var g :| g in groups && g.date == x.congratulationDate;
        var i :| 0 <= i < |groups| && groups[i] == g;
        assert r[i].date == g.date && r[i] in r;
      } else {
        assert r[k] in r;
      }
    }
  }

  /** The step of `Runs` that opens a group for a later date. */
  lemma OpenGroup(prefix: seq<Entry>, e: Entry, groups: seq<Group>)
    requires forall g :: g in groups ==> Before(g.date, e.congratulationDate)
    requires Ascending(groups) && NamesMatch(prefix, groups) && Covers(prefix, groups)
    ensures var r := groups + [Group(e.congratulationDate, [e.name])];
            Ascending(r) && NamesMatch(prefix + [e], r) && Covers(prefix + [e], r)
  {
    var r := groups + [Group(e.congratulationDate, [e.name])];
    var es := prefix + [e];
    forall x | x in prefix
      ensures x.congratulationDate != e.congratulationDate
    {
      var g :| g in groups && g.date == x.congratulationDate;
    }
    OnDayNone(prefix, e.congratulationDate);
    forall i, j | 0 <= i < j < |r|
      ensures Before(r[i].date, r[j].date)
    {
      if j == |groups| {
        assert r[i] in groups;
      }
    }
    forall g | g in r
      ensures g.names == Names(OnDay(es, g.date))
    {
      NamesOnDaySnoc(prefix, e, g.date);
      if g in groups {
        assert g.date != e.congratulationDate;
      } else {
        assert Names([]) == [];
      }
    }
    forall x | x in es
      ensures exists g :: g in r && g.date == x.congratulationDate
    {
      if x in prefix {
        var g :| g in groups && g.date == x.congratulationDate;
        assert g in r;
      } else {
        assert r[|groups|] in r;
      }
    }
  }

  /** On a date-sorted list, the runs are exactly what the dictionary of
      lines 213-217 holds once sorted: one group per date, dates strictly
      ascending, and each group's names are the names of the entries with
      that date, in list order. */
  lemma {:induction false} RunsGroupByDate(es: seq<Entry>)
    requires SortedByDate(es)
    ensures Ascending(Runs(es)) && NamesMatch(es, Runs(es)) && Covers(es, Runs(es))
  {
    if es != [] {
      var n := |es| - 1;
      var prefix, e := es[..n], es[n];
      assert es == prefix + [e];
      assert SortedByDate(prefix);
      RunsGroupByDate(prefix);
      var groups := Runs(prefix);
      if groups != [] && groups[|groups| - 1].date == e.congratulationDate {
        ExtendLastGroup(prefix, e, groups);
      } else {
        if groups != [] {
          var last := |groups| - 1;
          assert groups[last].date == es[n - 1].congratulationDate;
          assert AtOrBefore(es[n - 1].congratulationDate, e.congratulationDate);
          forall g | g in groups
            ensures Before(g.date, e.congratulationDate)
          {
            var i :| 0 <= i < |groups| && groups[i] == g;
            if i < last {
              assert Before(groups[i].date, groups[last].date);
            }
          }
        }
        OpenGroup(prefix, e, groups);
      }
    }
  }

  // ----------------------------------------------- what the handlers promise

  lemma ModifyWellFormed(d: Directory, name: string, c: Contact)
    requires WellFormed(d) && name in d.contacts && c.name == name
    ensures WellFormed(Modify(d, name, c))
  {
  }

  lemma EnsureRecordWellFormed(d: Directory, name: string)
    requires WellFormed(d)
    ensures WellFormed(EnsureRecord(d, name))
    ensures EnsureRecord(d, name).contacts[name] == (if name in d.contacts then d.contacts[name] else NewContact(name))
  {
    PutStores(d, NewContact(name), name);
  }

  /** Every handler that changes the book keeps it well formed. */
  lemma AddContactKeepsWellFormed(d: Directory, args: seq<string>)
    requires WellFormed(d)
    ensures WellFormed(AddContactSpec(d, args).0)
  {
    if |args| >= 2 {
      EnsureRecordWellFormed(d, args[0]);
      var d1 := EnsureRecord(d, args[0]);
      var r := AddPhoneTo(d1.contacts[args[0]], args[1]);
      if args[1] != "" && r.Success? {
        ModifyWellFormed(d1, args[0], r.value);
      }
    }
  }

  lemma ChangeContactKeepsWellFormed(d: Directory, args: seq<string>)
    requires WellFormed(d)
    ensures WellFormed(ChangeContactSpec(d, args).0)
  {
    if |args| >= 3 && args[0] in d.contacts {
      var r := EditPhoneIn(d.contacts[args[0]], args[1], args[2]);
      if r.Success? {
        ModifyWellFormed(d, args[0], r.value);
      }
    }
  }

  lemma AddBirthdayKeepsWellFormed(d: Directory, args: seq<string>)
    requires WellFormed(d)
    ensures WellFormed(AddBirthdaySpec(d, args).0)
  {
    if |args| >= 2 {
      EnsureRecordWellFormed(d, args[0]);
      var d1 := EnsureRecord(d, args[0]);
      var r := SetBirthday(d1.contacts[args[0]], args[1]);
      if r.Success? {
        ModifyWellFormed(d1, args[0], r.value);
      }
    }
  }

  /** `add` on a new name stores a record holding just that phone at the end
      of the iteration order and replies "Contact added."; on an existing
      name it appends the phone to the same record, keeps the order and
      replies "Contact updated.". No other record changes. */
  lemma AddContactCreatesOrAppends(d: Directory, name: string, phone: string, other: string)
    requires WellFormed(d) && IsPhoneNumber(phone)
    ensures var (d', reply) := AddContactSpec(d, [name, phone]);
            && (name !in d.contacts ==>
                  d'.contacts[name] == Contact(name, [phone], None) && d'.order == d.order + [name]
                  && reply == Said("Contact added."))
            && (name in d.contacts ==>
                  d'.contacts[name] == d.contacts[name].(phones := d.contacts[name].phones + [phone])
                  && d'.order == d.order && reply == Said("Contact updated."))
            && (other != name ==> Lookup(d', other) == Lookup(d, other))
  {
    PutStores(d, NewContact(name), other);
  }

  /** Adding two phones under one new name gives one record with both phones,
      not two records. */
  lemma AddContactTwice(d: Directory, name: string, p1: string, p2: string)
    requires WellFormed(d) && name !in d.contacts
    requires IsPhoneNumber(p1) && IsPhoneNumber(p2)
    ensures var d1 := AddContactSpec(d, [name, p1]).0;
            var d2 := AddContactSpec(d1, [name, p2]).0;
            d2.contacts[name].phones == [p1, p2] && d2.order == d.order + [name]
            && d2.contacts.Keys == d.contacts.Keys + {name}
  {
    AddContactCreatesOrAppends(d, name, p1, name);
    var d1 := AddContactSpec(d, [name, p1]).0;
    AddContactKeepsWellFormed(d, [name, p1]);
    AddContactCreatesOrAppends(d1, name, p2, name);
  }

  /** An invalid phone for a new name still leaves a new, empty record
      behind: the record is stored before the phone is validated. */
  lemma AddContactInvalidPhoneKeepsRecord(d: Directory, name: string, phone: string)
    requires WellFormed(d) && name !in d.contacts
    requires phone != "" && !IsPhoneNumber(phone)
    ensures AddContactSpec(d, [name, phone]).0.contacts == d.contacts[name := NewContact(name)]
    ensures AddContactSpec(d, [name, phone]).1 == Said(PhoneFormatError)
  {
  }

  /** A rejected phone for a known name leaves the book as it was and
      replies with the phone-format error. */
  lemma AddContactInvalidPhoneKeepsBook(d: Directory, name: string, phone: string)
    requires WellFormed(d) && name in d.contacts
    requires phone != "" && !IsPhoneNumber(phone)
    ensures AddContactSpec(d, [name, phone]) == (d, Said(PhoneFormatError))
  {
  }

  /** An empty phone is skipped: a new name gets an empty record at the end
      of the book and "Contact added."; a known name is left as it was and
      gets "Contact updated.". */
  lemma AddContactEmptyPhone(d: Directory, name: string)
    requires WellFormed(d)
    ensures name !in d.contacts ==>
              AddContactSpec(d, [name, ""])
              == (Directory(d.order + [name], d.contacts[name := Contact(name, [], None)]), Said("Contact added."))
    ensures name in d.contacts ==> AddContactSpec(d, [name, ""]) == (d, Said("Contact updated."))
  {
  }

  /** `change` on an unknown name replies "Contact not found." and changes
      nothing; on a known one it is `edit_phone` on that record alone. */
  lemma ChangeContactEditsOneRecord(d: Directory, args: seq<string>, other: string)
    requires WellFormed(d) && |args| >= 3
    ensures args[0] !in d.contacts ==> ChangeContactSpec(d, args) == (d, Said(ContactNotFound))
    ensures args[0] in d.contacts && EditPhoneIn(d.contacts[args[0]], args[1], args[2]).Success? ==>
              var d' := ChangeContactSpec(d, args).0;
              d'.order == d.order && d'.contacts[args[0]] == EditPhoneIn(d.contacts[args[0]], args[1], args[2]).value
              && ChangeContactSpec(d, args).1 == Said("Phone updated.")
    ensures args[0] in d.contacts && EditPhoneIn(d.contacts[args[0]], args[1], args[2]).Failure? ==>
              ChangeContactSpec(d, args).0 == d
    ensures other != args[0] ==> Lookup(ChangeContactSpec(d, args).0, other) == Lookup(d, other)
  {
  }

  /** `add-birthday` creates the record when the name is new, even if the
      date is then rejected: a new name goes to the end of the iteration
      order, a known one keeps its slot. A parsed date replaces only the
      birthday, keeping the phones; no other record changes. */
  lemma AddBirthdayCreatesRecord(d: Directory, name: string, value: string, other: string)
    requires WellFormed(d)
    ensures var (d', reply) := AddBirthdaySpec(d, [name, value]);
            var before := if name in d.contacts then d.contacts[name] else NewContact(name);
            && name in d'.contacts
            && d'.order == (if name in d.contacts then d.order else d.order + [name])
            && (ParseBirthday(value).Success? ==>
                  d'.contacts[name] == before.(birthday := Some(ParseBirthday(value).value))
                  && reply == Said("Birthday added."))
            && (ParseBirthday(value).Failure? ==>
                  d'.contacts[name] == before && reply == Said(DateFormatError))
            && (other != name ==> Lookup(d', other) == Lookup(d, other))
  {
    PutStores(d, NewContact(name), other);
  }

  /** Too few arguments: the unpacking ValueError's own text is the reply
      and the book is unchanged; the decorator's "Not enough arguments." is
      never produced, since no IndexError is raised. */
  lemma ShortArgumentsReply(d: Directory, args: seq<string>)
    ensures |args| < 2 ==>
              AddContactSpec(d, args) == (d, Said(UnpackError(2, |args|).message))
              && AddBirthdaySpec(d, args) == (d, Said(UnpackError(2, |args|).message))
    ensures |args| < 3 ==> ChangeContactSpec(d, args) == (d, Said(UnpackError(3, |args|).message))
    ensures |args| < 1 ==>
              ShowPhonesSpec(d, args) == Said(UnpackError(1, 0).message)
              && ShowBirthdaySpec(d, args) == Said(UnpackError(1, 0).message)
    ensures |args| < 2 ==> AddContactSpec(d, args).1 != Said(NotEnoughArguments)
  {
  }

  /** `birthdays` lists one line per congratulation date, dates ascending,
      each naming exactly the contacts congratulated that day in the order
      of the scan; an exception of the scan is reported by `input_error` (a
      ValueError as its text) or, for an OverflowError, escapes. */
  lemma BirthdaysReply(d: Directory, today: CalendarDate)
    requires WellFormed(d)
    ensures var scan := UpcomingBirthdays(Listing(d), today, 7);
            && (scan.Failure? && scan.error.ValueError? ==> BirthdaysSpec(d, today) == Said(scan.error.message))
            && (scan.Failure? && scan.error.OverflowError? ==> BirthdaysSpec(d, today) == Raised(scan.error))
            && (scan.Success? && scan.value == [] ==> BirthdaysSpec(d, today) == Said("No birthdays in the next 7 days."))
            && (scan.Success? && scan.value != [] ==>
                  var groups := Runs(scan.value);
                  && BirthdaysSpec(d, today) == Said(Join("\n", Lines(groups)))
                  && Ascending(groups) && NamesMatch(scan.value, groups) && Covers(scan.value, groups))
  {
    var scan := UpcomingBirthdays(Listing(d), today, 7);
    if scan.Success? {
      BirthdaysCases(d, today);
      RunsGroupByDate(scan.value);
    }
  }

  // ------------------------------------------------ the handlers on objects

  /** The values of every stored record except `rec`; it reads nothing of
      `rec`, so changing `rec` in place leaves it as it was. */
  ghost function Others(book: AddressBook, rec: Record): map<string, Contact>
    reads book, book.data.Values - {rec}
  {
    map k | k in book.data && book.data[k] != rec :: book.data[k].Value()
  }

  /** The book's value is the other records' values plus `rec`'s own. */
  lemma StateSplit(book: AddressBook, rec: Record)
    requires book.Valid() && rec in book.data.Values
    ensures rec.name in book.data && book.data[rec.name] == rec
    ensures book.State() == Directory(book.order, Others(book, rec)[rec.name := rec.Value()])
  {
    var k0 :| k0 in book.data && book.data[k0] == rec;
    assert book.State().contacts == Others(book, rec)[rec.name := rec.Value()];
  }

  /** Writing a record's own value back changes nothing. */
  lemma ModifyUnchanged(d: Directory, name: string)
    requires name in d.contacts
    ensures Modify(d, name, d.contacts[name]) == d
  {
    assert d.contacts[name := d.contacts[name]] == d.contacts;
  }

  lemma ReplaceValue(order: seq<string>, others: map<string, Contact>, name: string, a: Contact, b: Contact)
    ensures Directory(order, others[name := b]) == Modify(Directory(order, others[name := a]), name, b)
  {
    assert others[name := b] == others[name := a][name := b];
  }

  /** Lines 153-158 and 191-194: the stored record for `name`, created and
      stored first when there is none. */
  method FindOrCreate(name: string, book: AddressBook) returns (record: Record, created: bool)
    requires book.Valid()
    modifies book
    ensures book.Valid()
    ensures created <==> name !in old(book.State()).contacts
    ensures record in book.data.Values && record.name == name
    ensures book.State() == EnsureRecord(old(book.State()), name)
    ensures if created then fresh(record) else record in old(book.data.Values)
  {
    var found := book.Find(name);
    if found == null {
      record := new Record(name);
      book.AddRecord(record);
      assert book.data[name] == record;
      created := true;
    } else {
      record, created := found, false;
    }
  }

  method AddContact(args: seq<string>, book: AddressBook) returns (reply: Reply)
    requires book.Valid()
    modifies book, book.data.Values
    ensures book.Valid()
    ensures (book.State(), reply) == AddContactSpec(old(book.State()), args)
  {
    if |args| < 2 {
      return InputError(Failure(UnpackError(2, |args|)));
    }
    var name, phone := args[0], args[1];
    var record, created := FindOrCreate(name, book);
    var message := if created then "Contact added." else "Contact updated.";
    if phone != "" {
      ghost var d1 := book.State();
      StateSplit(book, record);
      var outcome := AddPhoneInPlace(record, phone, book);
      if outcome.Fail? {
        ModifyUnchanged(d1, name);
        return InputError(Failure(outcome.error));
      }
    }
    return InputError(Success(message));
  }

  /** `record.add_phone(phone)` on a stored record: the book changes by that
      record's new value and nothing else. */
  method AddPhoneInPlace(record: Record, phone: string, book: AddressBook) returns (outcome: Outcome<Exception>)
    requires book.Valid() && record in book.data.Values
    modifies record
    ensures book.Valid() && record.name in old(book.State()).contacts
    ensures book.State() == Modify(old(book.State()), record.name, record.Value())
    ensures outcome.Pass? <==> AddPhoneTo(old(record.Value()), phone).Success?
    ensures outcome.Pass? ==> record.Value() == AddPhoneTo(old(record.Value()), phone).value
    ensures outcome.Fail? ==> outcome.error == AddPhoneTo(old(record.Value()), phone).error && record.Value() == old(record.Value())
  {
    StateSplit(book, record);
    ghost var others, was := Others(book, record), record.Value();
    outcome := record.AddPhone(phone);
    StateSplit(book, record);
    ReplaceValue(book.order, others, record.name, was, record.Value());
  }

  method ChangeContact(args: seq<string>, book: AddressBook) returns (reply: Reply)
    requires book.Valid()
    modifies book.data.Values
    ensures book.Valid()
    ensures (book.State(), reply) == ChangeContactSpec(old(book.State()), args)
  {
    if |args| < 3 {
      return InputError(Failure(UnpackError(3, |args|)));
    }
    var name, oldPhone, newPhone := args[0], args[1], args[2];
    var record := book.Find(name);
    if record == null {
      return InputError(Failure(KeyError));
    }
    ghost var d0 := book.State();
    StateSplit(book, record);
    var outcome := EditPhoneInPlace(record, oldPhone, newPhone, book);
    if outcome.Fail? {
      ModifyUnchanged(d0, name);
      return InputError(Failure(outcome.error));
    }
    return InputError(Success("Phone updated."));
  }

  /** `record.edit_phone(old, new)` on a stored record: the book changes by
      that record's new value and nothing else. */
  method EditPhoneInPlace(record: Record, oldPhone: string, newPhone: string, book: AddressBook)
    returns (outcome: Outcome<Exception>)
    requires book.Valid() && record in book.data.Values
    modifies record
    ensures book.Valid() && record.name in old(book.State()).contacts
    ensures book.State() == Modify(old(book.State()), record.name, record.Value())
    ensures outcome.Pass? <==> EditPhoneIn(old(record.Value()), oldPhone, newPhone).Success?
    ensures outcome.Pass? ==> record.Value() == EditPhoneIn(old(record.Value()), oldPhone, newPhone).value
    ensures outcome.Fail? ==>
              outcome.error == EditPhoneIn(old(record.Value()), oldPhone, newPhone).error && record.Value() == old(record.Value())
  {
    StateSplit(book, record);
    ghost var others, was := Others(book, record), record.Value();
    outcome := record.EditPhone(oldPhone, newPhone);
    StateSplit(book, record);
    ReplaceValue(book.order, others, record.name, was, record.Value());
  }

  method ShowPhones(args: seq<string>, book: AddressBook) returns (reply: Reply)
    requires book.Valid()
    ensures reply == ShowPhonesSpec(book.State(), args)
  {
    if |args| < 1 {
      return InputError(Failure(UnpackError(1, 0)));
    }
    var record := book.Find(args[0]);
    if record == null {
      return InputError(Failure(KeyError));
    }
    if record.phones == [] {
      return Said("No phones.");
    }
    return Said(Join("; ", record.phones));
  }

  method ShowAll(args: seq<string>, book: AddressBook) returns (reply: Reply)
    requires book.Valid()
    ensures WellFormed(book.State()) && reply == ShowAllSpec(book.State())
  {
    book.StateWellFormed();
    if book.data == map[] {
      return Said("Address book is empty.");
    }
    return Said(Join("\n", DescribeAll(Listing(book.State()))));
  }

  method AddBirthday(args: seq<string>, book: AddressBook) returns (reply: Reply)
    requires book.Valid()
    modifies book, book.data.Values
    ensures book.Valid()
    ensures (book.State(), reply) == AddBirthdaySpec(old(book.State()), args)
  {
    if |args| < 2 {
      return InputError(Failure(UnpackError(2, |args|)));
    }
    var name, value := args[0], args[1];
    var record, created := FindOrCreate(name, book);
    ghost var d1 := book.State();
    StateSplit(book, record);
    var outcome := SetBirthdayInPlace(record, value, book);
    if outcome.Fail? {
      ModifyUnchanged(d1, name);
      return InputError(Failure(outcome.error));
    }
    return InputError(Success("Birthday added."));
  }

  /** `record.add_birthday(value)` on a stored record: the book changes by
      that record's new value and nothing else. */
  method SetBirthdayInPlace(record: Record, value: string, book: AddressBook) returns (outcome: Outcome<Exception>)
    requires book.Valid() && record in book.data.Values
    modifies record
    ensures book.Valid() && record.name in old(book.State()).contacts
    ensures book.State() == Modify(old(book.State()), record.name, record.Value())
    ensures outcome.Pass? <==> SetBirthday(old(record.Value()), value).Success?
    ensures outcome.Pass? ==> record.Value() == SetBirthday(old(record.Value()), value).value
    ensures outcome.Fail? ==> outcome.error == SetBirthday(old(record.Value()), value).error && record.Value() == old(record.Value())
  {
    StateSplit(book, record);
    ghost var others, was := Others(book, record), record.Value();
    outcome := record.AddBirthday(value);
    StateSplit(book, record);
    ReplaceValue(book.order, others, record.name, was, record.Value());
  }

  method ShowBirthday(args: seq<string>, book: AddressBook) returns (reply: Reply)
    requires book.Valid()
    ensures reply == ShowBirthdaySpec(book.State(), args)
  {
    if |args| < 1 {
      return InputError(Failure(UnpackError(1, 0)));
    }
    var record := book.Find(args[0]);
    if record == null {
      return InputError(Failure(KeyError));
    }
    if record.birthday.None? {
      return Said("No birthday set.");
    }
    return Said(RenderDate(record.birthday.value));
  }

  /** The dictionary lookup of `setdefault`: the slot already holding the
      date, if any. */
  function GroupIndex(groups: seq<Group>, k: Date): (r: Option<nat>)
    ensures r.Some? ==> r.value < |groups| && groups[r.value].date == k
    ensures r.None? <==> forall g :: g in groups ==> g.date != k
  {
    if groups == [] then None
    else if groups[0].date == k then Some(0)
    else match GroupIndex(groups[1..], k)
      case None => None
      case Some(i) => Some(i + 1)
  }

  /** On a date-sorted list the entry being grouped can only share the date
      of the last group, so `setdefault` either extends the last group or
      opens a new one, which is what `Runs` does. */
  lemma OnlyLastGroupMatches(prefix: seq<Entry>, e: Entry)
    requires SortedByDate(prefix + [e])
    ensures var groups := Runs(prefix);
            && (GroupIndex(groups, e.congratulationDate).Some? ==>
                  GroupIndex(groups, e.congratulationDate).value == |groups| - 1)
            && (GroupIndex(groups, e.congratulationDate).None? <==>
                  !(groups != [] && groups[|groups| - 1].date == e.congratulationDate))
  {
    var es := prefix + [e];
    assert SortedByDate(prefix) by {
      assert forall i :: 0 <= i < |prefix| ==> prefix[i] == es[i];
    }
    RunsGroupByDate(prefix);
    var groups := Runs(prefix);
    var idx := GroupIndex(groups, e.congratulationDate);
    if groups != [] {
      var last := |groups| - 1;
      assert groups[last].date == es[|prefix| - 1].congratulationDate;
      assert es[|prefix|] == e;
      assert AtOrBefore(groups[last].date, e.congratulationDate);
      forall i | 0 <= i < last
        ensures groups[i].date != e.congratulationDate
      {
        assert Before(groups[i].date, groups[last].date);
      }
      if idx.None? {
        assert groups[last] in groups;
      }
    }
  }

  /** One step of the grouping loop rebuilds `Runs` of one more entry. */
  lemma GroupStep(items: seq<Entry>, i: nat)
    requires SortedByDate(items) && i < |items|
    ensures var groups, e := Runs(items[..i]), items[i];
            var slot := GroupIndex(groups, e.congratulationDate);
            Runs(items[..i + 1])
            == if slot.Some? then groups[slot.value := groups[slot.value].(names := groups[slot.value].names + [e.name])]
               else groups + [Group(e.congratulationDate, [e.name])]
  {
    var e := items[i];
    var groups := Runs(items[..i]);
    assert items[..i + 1] == items[..i] + [e];
    assert SortedByDate(items[..i] + [e]) by {
      assert forall j :: 0 <= j <= i ==> (items[..i] + [e])[j] == items[j];
    }
    OnlyLastGroupMatches(items[..i], e);
    var slot := GroupIndex(groups, e.congratulationDate);
    if slot.Some? {
      var j := slot.value;
      assert groups[..j] + [groups[j].(names := groups[j].names + [e.name])]
          == groups[j := groups[j].(names := groups[j].names + [e.name])];
    }
  }

  /** Lines 213-214: each entry's name appended to the dictionary slot of
      its date, a new slot opened for a date not seen yet. */
  method GroupByDate(items: seq<Entry>) returns (groups: seq<Group>)
    requires SortedByDate(items)
    ensures groups == Runs(items)
  {
    groups := [];
    var i := 0;
    while i < |items|
      invariant 0 <= i <= |items|
      invariant groups == Runs(items[..i])
    {
      var e := items[i];
      GroupStep(items, i);
      var slot := GroupIndex(groups, e.congratulationDate);
      if slot.Some? {
        var j := slot.value;
        groups := groups[j := groups[j].(names := groups[j].names + [e.name])];
      } else {
        groups := groups + [Group(e.congratulationDate, [e.name])];
      }
      i := i + 1;
    }
    assert items[..|items|] == items;
  }

  /** Lines 215-218: one line per date, the names joined by commas. */
  method FormatLines(groups: seq<Group>) returns (lines: seq<string>)
    ensures lines == Lines(groups)
  {
    lines := [];
    var j := 0;
    while j < |groups|
      invariant 0 <= j <= |groups|
      invariant lines == Lines(groups[..j])
    {
      assert groups[..j + 1][..j] == groups[..j];
      lines := lines + [RenderDate(groups[j].date) + ": " + Join(", ", groups[j].names)];
      j := j + 1;
    }
    assert groups[..|groups|] == groups;
  }

  /** The reply of `birthdays` in each outcome of the scan, and the scan's
      entries sorted by date when it succeeds. */
  lemma BirthdaysCases(d: Directory, today: CalendarDate)
    requires WellFormed(d)
    ensures var scan := UpcomingBirthdays(Listing(d), today, 7);
            && (scan.Failure? ==> BirthdaysSpec(d, today) == InputError(Failure(scan.error)))
            && (scan.Success? ==> SortedByDate(scan.value))
            && (scan.Success? && scan.value == [] ==> BirthdaysSpec(d, today) == Said("No birthdays in the next 7 days."))
            && (scan.Success? && scan.value != [] ==> BirthdaysSpec(d, today) == Said(Join("\n", Lines(Runs(scan.value)))))
  {
    if UpcomingBirthdays(Listing(d), today, 7).Success? {
      UpcomingOrdered(Listing(d), today, 7, today);
    }
  }

  /** `birthdays`: the scan with the default 7-day window, grouped by date,
      one line per date in date order. */
  method Birthdays(args: seq<string>, book: AddressBook, today: CalendarDate) returns (reply: Reply)
    requires book.Valid()
    ensures WellFormed(book.State()) && reply == BirthdaysSpec(book.State(), today)
  {
    book.StateWellFormed();
    BirthdaysCases(book.State(), today);
    var upcoming := book.GetUpcomingBirthdays(today, 7);
    if upcoming.Failure? {
      return InputError(Failure(upcoming.error));
    }
    reply := Announce(upcoming.value);
  }

  /** Lines 211-220: the reply for a successful scan, one line per date. */
  method Announce(items: seq<Entry>) returns (reply: Reply)
    requires SortedByDate(items)
    ensures reply == if items == [] then Said("No birthdays in the next 7 days.") else Said(Join("\n", Lines(Runs(items))))
  {
    if items == [] {
      return Said("No birthdays in the next 7 days.");
    }
    var groups := GroupByDate(items);
    var lines := FormatLines(groups);
    return Said(Join("\n", lines));
  }
}
