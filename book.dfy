/** `AddressBook` (task.py:73-110): a dictionary from name to `Record`.
    Python dictionaries iterate in insertion order, overwriting a key keeps
    its place and `pop` removes it; `Directory` is the book's value with that
    order written out, and the class keeps the same two parts as fields. */
module Book {
  import opened Wrappers
  import opened Errors
  import opened Calendar
  import opened Records
  import opened Upcoming

  /** Names in iteration order, and the contact stored under each. */
  datatype Directory = Directory(order: seq<string>, contacts: map<string, Contact>)

  predicate NoDuplicates(s: seq<string>) {
    forall i, j :: 0 <= i < j < |s| ==> s[i] != s[j]
  }

  /** Every name appears once in the order, the order lists exactly the keys,
      and each record is stored under its own name. */
  ghost predicate WellFormed(d: Directory) {
    && NoDuplicates(d.order)
    && (forall k :: k in d.order <==> k in d.contacts)
    && (forall k :: k in d.contacts ==> d.contacts[k].name == k)
  }

  const EmptyDirectory := Directory([], map[])

  /** `add_record`: store under the record's name, replacing any earlier
      record; a new name goes to the end of the iteration order. */
  function Put(d: Directory, c: Contact): (r: Directory)
    ensures c.name in r.contacts && r.contacts[c.name] == c
    ensures |r.order| == |d.order| + (if c.name in d.contacts then 0 else 1)
  {
    Directory(if c.name in d.contacts then d.order else d.order + [c.name], d.contacts[c.name := c])
  }

  /** `find`: the record stored under `name`, or None. */
  function Lookup(d: Directory, name: string): (r: Option<Contact>)
    ensures r.Some? <==> name in d.contacts
    ensures r.Some? ==> r.value == d.contacts[name]
  {
    if name in d.contacts then Some(d.contacts[name]) else None
  }

  /** The order with `name` taken out. */
  function Erase(s: seq<string>, name: string): (r: seq<string>)
    ensures forall k :: k in r <==> k in s && k != name
    ensures NoDuplicates(s) ==> NoDuplicates(r)
  {
    if s == [] then []
    else if s[0] == name then Erase(s[1..], name)
    else
      var rest := Erase(s[1..], name);
      assert NoDuplicates(s) ==> s[0] !in s[1..] && NoDuplicates(s[1..]);
      assert NoDuplicates(s) ==> s[0] !in rest;
      [s[0]] + rest
  }

  /** `delete`: `pop(name, None)` removes the key if present. */
  function Remove(d: Directory, name: string): (r: Directory)
    ensures name !in r.contacts && name !in r.order
  {
    Directory(Erase(d.order, name), d.contacts - {name})
  }

  /** The records in iteration order (`self.data.values()`). */
  function Listing(d: Directory): (cs: seq<Contact>)
    requires WellFormed(d)
    ensures |cs| == |d.order|
    ensures forall i :: 0 <= i < |cs| ==> cs[i] == d.contacts[d.order[i]]
  {
    seq(|d.order|, i requires 0 <= i < |d.order| => d.contacts[d.order[i]])
  }

  // -------------------------------------------------- what the book promises

  /** `add_record` keeps the book well formed, stores the contact under its
      name, overwrites an earlier one wholesale and touches no other name;
      an existing name keeps its place in the iteration order. */
  lemma PutStores(d: Directory, c: Contact, other: string)
    requires WellFormed(d)
    ensures WellFormed(Put(d, c))
    ensures Lookup(Put(d, c), c.name) == Some(c)
    ensures other != c.name ==> Lookup(Put(d, c), other) == Lookup(d, other)
    ensures c.name in d.contacts ==> Put(d, c).order == d.order
    ensures c.name !in d.contacts ==> Put(d, c).order == d.order + [c.name]
  {
  }

  /** `delete` removes the name if present, is a no-op otherwise, and leaves
      every other name as it was. */
  lemma RemoveErases(d: Directory, name: string, other: string)
    requires WellFormed(d)
    ensures WellFormed(Remove(d, name))
    ensures Lookup(Remove(d, name), name) == None
    ensures other != name ==> Lookup(Remove(d, name), other) == Lookup(d, other)
    ensures name !in d.contacts ==> Remove(d, name) == d
    ensures name in d.contacts ==>
              exists i :: 0 <= i < |d.order| && d.order[i] == name
                          && Remove(d, name).order == d.order[..i] + d.order[i + 1..]
  {
    if name !in d.contacts {
      EraseAbsent(d.order, name);
      assert d.contacts - {name} == d.contacts;
    } else {
      var i :| 0 <= i < |d.order| && d.order[i] == name;
      EraseSplit(d.order, name, i);
    }
  }

  /** Erasing distributes over concatenation: the names that stay keep their
      relative order. */
  lemma {:induction false} EraseConcat(a: seq<string>, b: seq<string>, name: string)
    ensures Erase(a + b, name) == Erase(a, name) + Erase(b, name)
  {
    if a != [] {
      assert (a + b)[1..] == a[1..] + b;
      EraseConcat(a[1..], b, name);
    } else {
      assert a + b == b;
    }
  }

  /** In an order without duplicates, erasing a present name cuts out its one
      slot and leaves the rest in place. */
  lemma EraseSplit(s: seq<string>, name: string, i: nat)
    requires NoDuplicates(s) && i < |s| && s[i] == name
    ensures Erase(s, name) == s[..i] + s[i + 1..]
  {
    assert s == s[..i] + ([s[i]] + s[i + 1..]);
    assert name !in s[..i] && name !in s[i + 1..] by {
      forall j | 0 <= j < |s| && j != i
        ensures s[j] != name
      {
      }
    }
    EraseConcat(s[..i], [s[i]] + s[i + 1..], name);
    EraseConcat([s[i]], s[i + 1..], name);
    EraseAbsent(s[..i], name);
    EraseAbsent(s[i + 1..], name);
    assert Erase([s[i]], name) == [];
  }

  lemma {:induction false} EraseAbsent(s: seq<string>, name: string)
    requires name !in s
    ensures Erase(s, name) == s
  {
    if s != [] {
      EraseAbsent(s[1..], name);
    }
  }

  /** The book's records have distinct names, as the scan's lemmas assume. */
  lemma ListingDistinct(d: Directory)
    requires WellFormed(d)
    ensures DistinctNames(Listing(d))
  {
    var cs := Listing(d);
    forall i, j | 0 <= i < j < |cs|
      ensures cs[i].name != cs[j].name
    {
      assert cs[i].name == d.order[i] && cs[j].name == d.order[j];
    }
  }

  /** A record is in the listing exactly when its name is a key. */
  lemma ListingCovers(d: Directory, name: string)
    requires WellFormed(d)
    ensures name in d.contacts <==> exists i :: 0 <= i < |Listing(d)| && Listing(d)[i].name == name
  {
    if name in d.contacts {
      var i :| 0 <= i < |d.order| && d.order[i] == name;
      assert Listing(d)[i].name == name;
    }
  }

  // ------------------------------------------------------------ the object

  /** Lines 89-103 for one record: skip it without a birthday, project the
      birthday (either `replace` may raise), test the window, shift off the
      weekend. */
  method ProjectBirthday(rec: Record, today: CalendarDate, endOrdinal: int) returns (item: Result<Option<Entry>, Exception>)
    ensures item == Consider(rec.Value(), today, endOrdinal)
  {
    if rec.birthday.None? {
      return Success(None);
    }
    var bday := rec.birthday.value;
    var nextBd := ReplaceYear(bday, today.year);
    if nextBd.Failure? {
      return Failure(nextBd.error);
    }
    if Before(nextBd.value, today) {
      nextBd := ReplaceYear(bday, today.year + 1);
      if nextBd.Failure? {
        return Failure(nextBd.error);
      }
    }
    var n := nextBd.value;
    assert NextOccurrence(bday, today) == Success(n);
    if AtOrBefore(today, n) && Ordinal(n) <= endOrdinal {
      var congr := n;
      if Weekday(congr) == Saturday {
        WeekendHasRoom(congr);
        congr := NextDay(NextDay(congr));
      } else if Weekday(congr) == Sunday {
        WeekendHasRoom(congr);
        congr := NextDay(congr);
      }
      return Success(Some(Entry(rec.name, congr)));
    }
    return Success(None);
  }

  class AddressBook {
    var order: seq<string>
    var data: map<string, Record>

    ghost predicate Valid()
      reads this
    {
      && NoDuplicates(order)
      && (forall k :: k in order <==> k in data)
      && (forall k :: k in data ==> data[k].name == k)
    }

    /** The book's value: every stored record read at this moment. */
    function State(): Directory
      reads this, data.Values
    {
      Directory(order, map k | k in data :: data[k].Value())
    }

    lemma StateWellFormed()
      requires Valid()
      ensures WellFormed(State())
    {
    }

    /** The `i`-th record in iteration order holds the `i`-th listed contact. */
    lemma ListingAt(i: int)
      requires Valid() && 0 <= i < |order|
      ensures order[i] in data && data[order[i]].Value() == Listing(State())[i]
    {
    }

    constructor ()
      ensures Valid() && State() == EmptyDirectory
    {
      order := [];
      data := map[];
    }

    method AddRecord(record: Record)
      requires Valid()
      modifies this
      ensures Valid()
      ensures data == old(data)[record.name := record]
      ensures State() == Put(old(State()), record.Value())
    {
      ghost var before := State();
      if record.name !in data {
        order := order + [record.name];
      }
      data := data[record.name := record];
      assert State().contacts == before.contacts[record.name := record.Value()];
    }

    method Find(name: string) returns (r: Record?)
      requires Valid()
      ensures r == null <==> Lookup(State(), name).None?
      ensures r != null ==> r in data.Values && r.name == name && Lookup(State(), name) == Some(r.Value())
    {
      if name in data {
        r := data[name];
      } else {
        r := null;
      }
    }

    method Delete(name: string)
      requires Valid()
      modifies this
      ensures Valid()
      ensures data == old(data) - {name}
      ensures State() == Remove(old(State()), name)
    {
      ghost var before := State();
      if name in data {
        order := Erase(order, name);
        data := data - {name};
        assert State().contacts == before.contacts - {name};
        assert State() == Remove(before, name);
      } else {
        EraseAbsent(order, name);
        assert before.contacts - {name} == before.contacts;
        assert State() == Remove(before, name);
      }
    }

    /** The scan as the source runs it, with `today` given instead of read
        from the clock. */
    method GetUpcomingBirthdays(today: CalendarDate, days: int) returns (r: Result<seq<Entry>, Exception>)
      requires Valid()
      ensures r == UpcomingBirthdays(Listing(State()), today, days)
    {
      var endDay := EndOrdinal(today, days);
      if endDay.Failure? {
        return Failure(endDay.error);
      }
      var result := CollectEntries(today, endDay.value);
      if result.Failure? {
        return Failure(result.error);
      }
      return Success(SortByDate(result.value));
    }

    /** The loop of lines 88-108: records in iteration order, the first
        exception ending the scan. */
    method CollectEntries(today: CalendarDate, endOrdinal: int) returns (r: Result<seq<Entry>, Exception>)
      requires Valid()
      ensures r == Collect(Listing(State()), today, endOrdinal)
    {
      var result: seq<Entry> := [];
      var i := 0;
      while i < |order|
        invariant 0 <= i <= |order|
        invariant Collect(Listing(State())[..i], today, endOrdinal) == Success(result)
      {
        var next := ScanRecord(i, today, endOrdinal, result);
        if next.Failure? {
          return next;
        }
        result := next.value;
        i := i + 1;
      }
      WholeListing();
      return Success(result);
    }

    lemma WholeListing()
      requires Valid()
      ensures Listing(State())[..|order|] == Listing(State())
    {
    }

    /** One pass of that loop: the `i`-th record's entry, if any, appended to
        what the earlier records gave, or the exception that ends the scan. */
    method ScanRecord(i: int, today: CalendarDate, endOrdinal: int, result: seq<Entry>)
      returns (next: Result<seq<Entry>, Exception>)
      requires Valid() && 0 <= i < |order|
      requires Collect(Listing(State())[..i], today, endOrdinal) == Success(result)
      ensures next.Success? ==> Collect(Listing(State())[..i + 1], today, endOrdinal) == next
      ensures next.Failure? ==> Collect(Listing(State()), today, endOrdinal) == next
    {
      ghost var cs := Listing(State());
      var rec := data[order[i]];
      ListingAt(i);
      var item := ProjectBirthday(rec, today, endOrdinal);
      if item.Failure? {
        CollectAborts(cs, i, today, endOrdinal, item.error);
        return Failure(item.error);
      }
      CollectStep(cs, i, today, endOrdinal, result, item.value);
      if item.value.Some? {
        return Success(result + [item.value.value]);
      }
      assert result + [] == result;
      return Success(result);
    }
  }
}
