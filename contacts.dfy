/** The contact classes of `classes.py`: `Record`, one contact whose phone
    list and birthday its methods update in place, and `AddressBook`, the
    dictionary from name to record (kept in insertion order, as a Python
    dict is) with the upcoming-birthday query. */
module Contacts {
  import opened Common
  import opened Dates
  import Fields
  import Upcoming

  /** The state of one record: its phones and its birthday. */
  datatype Contact = Contact(phones: seq<string>, birthday: Option<Date>)

  class Record {
    /** `Name` is never reassigned. */
    const name: string
    var phones: seq<string>
    var birthday: Option<Date>

    /** Every stored phone passed `Phone`, and a stored birthday is a real date. */
    ghost predicate Valid()
      reads this
    {
      Fields.AllPhones(phones) && (birthday.Some? ==> IsValid(birthday.value))
    }

    constructor (name: string)
      ensures this.name == name && phones == [] && birthday == None
      ensures Valid()
    {
      this.name := name;
      phones := [];
      birthday := None;
    }

    /** `str(record)`: "Contact name: <name>, phones: <p1>; <p2>." */
    function Text(): string
      reads this
    {
      "Contact name: " + name + ", phones: " + Fields.Join(phones) + "."
    }

    method AddPhone(phone: string) returns (outcome: Outcome)
      requires Valid()
      modifies this`phones
      ensures Valid()
      ensures outcome == OutcomeOf(Fields.AddPhone(old(phones), phone))
      ensures phones == StateAfter(Fields.AddPhone(old(phones), phone), old(phones))
      ensures Distinct(old(phones)) ==> Distinct(phones)
    {
      Fields.AddPhoneSpec(phones, phone);
      var checked := Fields.NewPhone(phone);
      if checked.Failure? {
        return Raised(checked.error);
      }
      if phone in phones {
        return Raised(ValueError);
      }
      phones := phones + [phone];
      return Returned;
    }

    /** The loop of `edit_phone`, rewriting the matching entries one by one. */
    method EditPhone(oldNumber: string, newNumber: string) returns (outcome: Outcome)
      requires Valid()
      modifies this`phones
      ensures Valid()
      ensures outcome == Fields.EditPhone(old(phones), oldNumber, newNumber).outcome
      ensures phones == Fields.EditPhone(old(phones), oldNumber, newNumber).phones
    {
      Fields.EditPhoneKeepsPhones(phones, oldNumber, newNumber);
      if Fields.NewPhone(newNumber).Failure? {
        return Raised(ValueError);
      }
      ghost var before := phones;
      var i := 0;
      while i < |phones|
        invariant 0 <= i <= |phones| == |before|
        invariant forall j :: 0 <= j < i ==> before[j] == oldNumber && phones[j] == newNumber
        invariant forall j :: i <= j < |phones| ==> phones[j] == before[j]
      {
        if phones[i] == oldNumber {
          phones := phones[i := newNumber];
        } else {
          Fields.Rewritten(phones, before, oldNumber, newNumber, i);
          return Raised(ValueError);
        }
        i := i + 1;
      }
      Fields.Rewritten(phones, before, oldNumber, newNumber, i);
      return Returned;
    }

    method RemovePhone(phone: string)
      requires Valid()
      modifies this`phones
      ensures Valid()
      ensures phones == Fields.RemovePhone(old(phones), phone)
      ensures Distinct(old(phones)) ==> Distinct(phones)
    {
      Fields.RemovePhoneSpec(phones, phone);
      phones := Fields.RemovePhone(phones, phone);
    }

    /** `find_phone`: the number if some stored phone equals it, else `None`. */
    method FindPhone(phone: string) returns (found: Option<string>)
      ensures found == Some(phone) <==> phone in phones
      ensures found == None <==> phone !in phones
    {
      for i := 0 to |phones|
        invariant phone !in phones[..i]
      {
        if phones[i] == phone {
          return Some(phone);
        }
      }
      assert phones[..|phones|] == phones;
      return None;
    }

    method AddBirthday(text: string) returns (outcome: Outcome)
      requires Valid()
      modifies this`birthday
      ensures Valid()
      ensures outcome == OutcomeOf(Fields.AddBirthday(old(birthday), text))
      ensures birthday == match Fields.AddBirthday(old(birthday), text)
                          case Success(d) => Some(d)
                          case Failure(_) => old(birthday)
    {
      Fields.AddBirthdaySpec(birthday, text);
      var parsed := Parse(text);
      if parsed.Failure? {
        return Raised(ValueError);
      }
      // The check `birthday.value == self.birthday` compares a date with a
      // `Birthday` object or `None` and is never true, so nothing is rejected here.
      birthday := Some(parsed.value);
      return Returned;
    }
  }

  class AddressBook {
    /** The keys in insertion order. */
    var order: seq<string>
    var data: map<string, Record>

    /** Each record is stored under its own name, every key appears once in
        `order`, and every record is valid. */
    ghost predicate Valid()
      reads this, data.Values
    {
      && (forall k :: k in data ==> data[k].name == k && data[k].Valid())
      && Distinct(order)
      && (forall k :: k in order <==> k in data)
    }

    /** The state of every record, by name. */
    ghost function Contacts(): map<string, Contact>
      reads this, data.Values
    {
      map k | k in data :: Contact(data[k].phones, data[k].birthday)
    }

    constructor ()
      ensures Valid() && order == [] && data == map[]
    {
      order := [];
      data := map[];
    }

    /** `add_record`: store under the record's name, overwriting in place. */
    method AddRecord(record: Record)
      requires Valid() && record.Valid()
      modifies this
      ensures Valid()
      ensures data == old(data)[record.name := record]
      ensures order == if record.name in old(data) then old(order) else old(order) + [record.name]
    {
      if record.name !in data {
        order := order + [record.name];
      }
      data := data[record.name := record];
    }

    /** `find`: the record stored under `name`, or `None`. */
    function Find(name: string): (r: Option<Record>)
      reads this, data.Values
      requires Valid()
      ensures r.Some? <==> name in data
      ensures r.Some? ==> r.value == data[name] && r.value.name == name
    {
      if name in data then Some(data[name]) else None
    }

    /** `delete`: remove the entry, or raise `ValueError` if there is none. */
    method Delete(name: string) returns (outcome: Outcome)
      requires Valid()
      modifies this
      ensures Valid()
      ensures outcome == if name in old(data) then Returned else Raised(ValueError)
      ensures data == old(data) - {name}
      ensures order == Without(old(order), name)
      ensures forall k :: k in data ==> data[k] == old(data)[k]
    {
      WithoutCounts(order, name);
      WithoutDistinct(order, name);
      if name in data {
        data := data - {name};
        order := Without(order, name);
        return Returned;
      }
      assert Without(order, name) == order by {
        WithoutAbsent(order, name);
      }
      return Raised(ValueError);
    }

    /** After the record under `name` changed in place and no other record
        did, the book is still valid and only that contact differs. */
    twostate lemma RecordUpdated(name: string)
      requires old(Valid()) && name in data
      requires data == old(data) && order == old(order)
      requires data[name].Valid()
      requires forall k :: k in data && k != name ==> unchanged(data[k])
      ensures Valid()
      ensures Contacts() == old(Contacts())[name := Contact(data[name].phones, data[name].birthday)]
    {
    }

    /** The contacts as the upcoming-birthday query sees them, in book order. */
    function People(keys: seq<string>): (people: seq<Upcoming.Person>)
      reads this, data.Values
      requires Valid() && forall k :: k in keys ==> k in data
      ensures |people| == |keys| && Upcoming.ValidPeople(people)
      ensures forall i :: 0 <= i < |keys| ==> people[i] == Upcoming.Person(keys[i], data[keys[i]].birthday)
    {
      if keys == [] then [] else [Upcoming.Person(keys[0], data[keys[0]].birthday)] + People(keys[1..])
    }

    /** `get_upcoming_birthdays`, with the day it runs as a parameter: the
        loop of `Upcoming.Collect` over the records in insertion order. */
    method GetUpcomingBirthdays(today: Date) returns (r: Result<seq<Upcoming.Entry>>)
      requires Valid() && IsValid(today)
      ensures r == Upcoming.RenderAll(Upcoming.UpcomingBirthdays(People(order), today))
    {
      var people := People(order);
      r := Upcoming.Collect(people, today);
    }
  }
}
