/** `Record` (task.py:39-71): a contact's name, its ordered list of phones
    and an optional birthday. The pure functions on `Contact` say what each
    operation does to a record's value; the class `Record` holds the fields
    and changes them in place, as the source does. */
module Records {
  import opened Wrappers
  import opened Errors
  import opened Calendar
  import opened Fields

  /** The value a `Record` holds at one moment. */
  datatype Contact = Contact(name: string, phones: seq<Phone>, birthday: Option<CalendarDate>)

  const OldPhoneNotFound := "Old phone not found"

  function NewContact(name: string): Contact {
    Contact(name, [], None)
  }

  // ------------------------------------------------ phone-list specifications

  /** The phones that are not equal to `phone`, in their original order. */
  function Without(phones: seq<Phone>, phone: string): (r: seq<Phone>)
    ensures |r| <= |phones|
    ensures forall q :: q in r <==> q in phones && q != phone
    ensures forall q :: multiset(r)[q] == if q == phone then 0 else multiset(phones)[q]
  {
    if phones == [] then []
    else
      var n := |phones| - 1;
      assert phones == phones[..n] + [phones[n]];
      Without(phones[..n], phone) + (if phones[n] == phone then [] else [phones[n]])
  }

  /** Removing distributes over concatenation: the survivors keep their order. */
  lemma {:induction false} WithoutConcat(a: seq<Phone>, b: seq<Phone>, phone: string)
    ensures Without(a + b, phone) == Without(a, phone) + Without(b, phone)
    decreases |b|
  {
    if b == [] {
      assert a + b == a;
    } else {
      var n := |b| - 1;
      assert (a + b)[..|a + b| - 1] == a + b[..n];
      WithoutConcat(a, b[..n], phone);
    }
  }

  /** Removing a phone nobody has changes nothing. */
  lemma {:induction false} WithoutAbsent(phones: seq<Phone>, phone: string)
    requires phone !in phones
    ensures Without(phones, phone) == phones
  {
    if phones != [] {
      var n := |phones| - 1;
      assert phones == phones[..n] + [phones[n]];
      WithoutAbsent(phones[..n], phone);
    }
  }

  /** Index of the first phone equal to `phone`. */
  function FirstIndex(phones: seq<Phone>, phone: string): (r: Option<nat>)
    ensures r.Some? ==> r.value < |phones| && phones[r.value] == phone
    ensures r.Some? ==> forall j :: 0 <= j < r.value ==> phones[j] != phone
    ensures r.None? <==> phone !in phones
  {
    if phones == [] then None
    else if phones[0] == phone then Some(0)
    else match FirstIndex(phones[1..], phone)
      case None => None
      case Some(i) => Some(i + 1)
  }

  // ------------------------------------------- record operations on values

  /** `add_phone`: validate, then append (duplicates allowed). */
  function AddPhoneTo(c: Contact, phone: string): (r: Result<Contact, Exception>)
    ensures r.Success? <==> IsPhoneNumber(phone)
    ensures r.Success? ==> phone in r.value.phones && r.value.name == c.name && r.value.birthday == c.birthday
  {
    var p :- ValidatePhone(phone);
    Success(c.(phones := c.phones + [p]))
  }

  /** `remove_phone`: drop every phone equal to `phone`. */
  function RemovePhoneFrom(c: Contact, phone: string): (r: Contact)
    ensures phone !in r.phones && |r.phones| <= |c.phones|
    ensures r.name == c.name && r.birthday == c.birthday
  {
    c.(phones := Without(c.phones, phone))
  }

  /** `edit_phone`: validate the new phone first, then overwrite the first
      phone equal to `oldPhone`; raise if there is none. */
  function EditPhoneIn(c: Contact, oldPhone: string, newPhone: string): (r: Result<Contact, Exception>)
    ensures r.Success? ==> IsPhoneNumber(newPhone) && oldPhone in c.phones
    ensures r.Success? ==> newPhone in r.value.phones && |r.value.phones| == |c.phones|
    ensures r.Success? ==> r.value.name == c.name && r.value.birthday == c.birthday
  {
    var p :- ValidatePhone(newPhone);
    match FirstIndex(c.phones, oldPhone)
    case None => Failure(ValueError(OldPhoneNotFound))
    case Some(i) =>
      assert c.phones[i := p][i] == p;
      Success(c.(phones := c.phones[i := p]))
  }

  /** `add_birthday`: parse, then overwrite any earlier birthday. */
  function SetBirthday(c: Contact, value: string): (r: Result<Contact, Exception>)
    ensures r.Success? <==> ParseBirthday(value).Success?
    ensures r.Success? ==> r.value.birthday.Some? && r.value.phones == c.phones && r.value.name == c.name
  {
    var d :- ParseBirthday(value);
    Success(c.(birthday := Some(d)))
  }

  // ---------------------------------------------- what the operations promise

  /** `add_phone` appends exactly the given text at the end, or raises the
      phone ValueError and changes nothing. */
  lemma AddPhoneAppends(c: Contact, phone: string)
    ensures AddPhoneTo(c, phone).Success? <==> IsPhoneNumber(phone)
    ensures AddPhoneTo(c, phone).Success? ==>
              var d := AddPhoneTo(c, phone).value;
              d.name == c.name && d.birthday == c.birthday
              && |d.phones| == |c.phones| + 1 && d.phones[..|c.phones|] == c.phones && d.phones[|c.phones|] == phone
    ensures AddPhoneTo(c, phone).Failure? ==> AddPhoneTo(c, phone).error == ValueError(PhoneFormatError)
  {
    var r := ValidatePhone(phone);
    if r.Success? {
      assert (c.phones + [r.value])[..|c.phones|] == c.phones;
    }
  }

  /** Adding the same phone twice keeps both copies. */
  lemma AddPhoneKeepsDuplicates(c: Contact, phone: string)
    requires IsPhoneNumber(phone)
    ensures var once := AddPhoneTo(c, phone).value;
            AddPhoneTo(once, phone).Success? && AddPhoneTo(once, phone).value.phones == c.phones + [phone, phone]
  {
  }

  /** `remove_phone` leaves exactly the other phones, each as often as before
      and in the same order, and is a no-op when nothing matches. */
  lemma RemovePhoneKeepsOthers(c: Contact, phone: string)
    ensures phone !in RemovePhoneFrom(c, phone).phones
    ensures forall q :: q != phone ==> multiset(RemovePhoneFrom(c, phone).phones)[q] == multiset(c.phones)[q]
    ensures phone !in c.phones ==> RemovePhoneFrom(c, phone) == c
    ensures RemovePhoneFrom(c, phone).name == c.name && RemovePhoneFrom(c, phone).birthday == c.birthday
  {
    if phone !in c.phones {
      WithoutAbsent(c.phones, phone);
    }
  }

  /** `edit_phone` overwrites only the first match, keeps its position and the
      length, and leaves every other entry (later matches included) alone. */
  lemma EditPhoneReplacesFirst(c: Contact, oldPhone: string, newPhone: string)
    requires EditPhoneIn(c, oldPhone, newPhone).Success?
    ensures var d := EditPhoneIn(c, oldPhone, newPhone).value;
            exists i :: 0 <= i < |c.phones| && c.phones[i] == oldPhone
              && (forall j :: 0 <= j < i ==> c.phones[j] != oldPhone)
              && d.phones == c.phones[i := newPhone]
    ensures var d := EditPhoneIn(c, oldPhone, newPhone).value;
            |d.phones| == |c.phones| && d.name == c.name && d.birthday == c.birthday
  {
    var i := FirstIndex(c.phones, oldPhone).value;
    assert c.phones[i] == oldPhone;
  }

  /** `edit_phone` fails exactly when the new phone is invalid (checked first,
      whatever the list holds) or no phone equals the old one. */
  lemma EditPhoneFailures(c: Contact, oldPhone: string, newPhone: string)
    ensures !IsPhoneNumber(newPhone) ==> EditPhoneIn(c, oldPhone, newPhone) == Failure(ValueError(PhoneFormatError))
    ensures IsPhoneNumber(newPhone) && oldPhone !in c.phones ==>
              EditPhoneIn(c, oldPhone, newPhone) == Failure(ValueError(OldPhoneNotFound))
    ensures IsPhoneNumber(newPhone) && oldPhone in c.phones ==> EditPhoneIn(c, oldPhone, newPhone).Success?
  {
  }

  /** `add_birthday` stores the parsed date, replacing any earlier one, or
      raises the date-format ValueError. */
  lemma SetBirthdayOverwrites(c: Contact, value: string)
    ensures SetBirthday(c, value).Success? <==> ParseBirthday(value).Success?
    ensures SetBirthday(c, value).Success? ==>
              SetBirthday(c, value).value == Contact(c.name, c.phones, Some(ParseBirthday(value).value))
    ensures SetBirthday(c, value).Failure? ==> SetBirthday(c, value).error == ValueError(DateFormatError)
  {
  }

  // ----------------------------------------------------------- the object

  class Record {
    const name: string
    var phones: seq<Phone>
    var birthday: Option<CalendarDate>

    constructor (name: string)
      ensures Value() == NewContact(name)
    {
      this.name := name;
      phones := [];
      birthday := None;
    }

    function Value(): Contact
      reads this
    {
      Contact(name, phones, birthday)
    }

    method AddPhone(phone: string) returns (outcome: Outcome<Exception>)
      modifies this
      ensures outcome.Pass? <==> AddPhoneTo(old(Value()), phone).Success?
      ensures outcome.Pass? ==> Value() == AddPhoneTo(old(Value()), phone).value
      ensures outcome.Fail? ==> outcome.error == AddPhoneTo(old(Value()), phone).error && Value() == old(Value())
    {
      var p := ValidatePhone(phone);
      if p.Failure? {
        return Fail(p.error);
      }
      phones := phones + [p.value];
      return Pass;
    }

    method RemovePhone(phone: string)
      modifies this
      ensures Value() == RemovePhoneFrom(old(Value()), phone)
    {
      phones := Without(phones, phone);
    }

    method EditPhone(oldPhone: string, newPhone: string) returns (outcome: Outcome<Exception>)
      modifies this
      ensures outcome.Pass? <==> EditPhoneIn(old(Value()), oldPhone, newPhone).Success?
      ensures outcome.Pass? ==> Value() == EditPhoneIn(old(Value()), oldPhone, newPhone).value
      ensures outcome.Fail? ==>
                outcome.error == EditPhoneIn(old(Value()), oldPhone, newPhone).error && Value() == old(Value())
    {
      var p := ValidatePhone(newPhone);
      if p.Failure? {
        return Fail(p.error);
      }
      var i := 0;
      while i < |phones|
        invariant 0 <= i <= |phones|
        invariant Value() == old(Value())
        invariant forall j :: 0 <= j < i ==> phones[j] != oldPhone
      {
        if phones[i] == oldPhone {
          assert FirstIndex(phones, oldPhone) == Some(i);
          phones := phones[i := p.value];
          return Pass;
        }
        i := i + 1;
      }
      return Fail(ValueError(OldPhoneNotFound));
    }

    /** `find_phone`: the phone itself if some entry equals it, else None. */
    method FindPhone(phone: string) returns (r: Option<string>)
      ensures r.Some? <==> phone in phones
      ensures r.Some? ==> r.value == phone
    {
      var i := 0;
      while i < |phones|
        invariant 0 <= i <= |phones|
        invariant forall j :: 0 <= j < i ==> phones[j] != phone
      {
        if phones[i] == phone {
          return Some(phones[i]);
        }
        i := i + 1;
      }
      return None;
    }

    method AddBirthday(value: string) returns (outcome: Outcome<Exception>)
      modifies this
      ensures outcome.Pass? <==> SetBirthday(old(Value()), value).Success?
      ensures outcome.Pass? ==> Value() == SetBirthday(old(Value()), value).value
      ensures outcome.Fail? ==> outcome.error == SetBirthday(old(Value()), value).error && Value() == old(Value())
    {
      var d := ParseBirthday(value);
      if d.Failure? {
        return Fail(d.error);
      }
      birthday := Some(d.value);
      return Pass;
    }
  }
}
