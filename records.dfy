/** One contact: a name, an ordered list of phones, an optional birthday and email. */
module Records {
  import opened Errors
  import opened Text
  import opened Dates
  import opened Fields

  /** What a record holds at one moment. */
  datatype Contact = Contact(name: Name, phones: seq<Phone>, birthday: Option<Birthday>, email: Option<Email>)

  /** `show_contact_info`: the name, the phone values joined by ", ", the birthday and the email. */
  datatype ContactInfo = ContactInfo(name: string, phone: string, birthday: Option<Birthday>, email: Option<Email>)

  function PhoneValues(ps: seq<Phone>): (vs: seq<string>)
    ensures |vs| == |ps|
    ensures forall i :: 0 <= i < |ps| ==> vs[i] == ps[i].value
  {
    seq(|ps|, i requires 0 <= i < |ps| => ps[i].value)
  }

  /** An optional birthday inside an f-string: its `DD-MM-YYYY` text, or "None". */
  function OptionalBirthdayText(b: Option<Birthday>): string
  {
    match b
    case None => "None"
    case Some(v) => BirthdayText(v)
  }

  /** An optional email inside an f-string: the address, or "None". */
  function OptionalEmailText(e: Option<Email>): string
  {
    match e
    case None => "None"
    case Some(v) => v.value
  }

  // ---------------------------------------------------------------------------
  // change(old_phone, new_phone)
  // ---------------------------------------------------------------------------

  /**
   * The phone list after `change`: the loop body returns on its first
   * iteration whatever the comparison says, so only the first phone is
   * consulted; a match is removed and the new phone goes to the end.
   */
  function ChangedPhones(ps: seq<Phone>, oldPhone: Phone, newPhone: Phone): (r: seq<Phone>)
    ensures |r| == |ps|
    ensures forall p :: p in r ==> p in ps || p == newPhone
  {
    if |ps| > 0 && ps[0].value == oldPhone.value then ps[1..] + [newPhone] else ps
  }

  /** What `change` reports: nothing for an empty list, else success or "not found" from the first phone alone. */
  function ChangeReply(ps: seq<Phone>, oldPhone: Phone, newPhone: Phone): (r: Option<string>)
    ensures r.None? <==> ps == []
  {
    if |ps| == 0 then None
    else if ps[0].value == oldPhone.value then
      Some("Phone " + oldPhone.value + " was successfully changed to " + newPhone.value)
    else Some("Phone number '" + oldPhone.value + "' was not found in the record")
  }

  /** A later phone with the old value is never changed when the first phone differs. */
  lemma ChangeIgnoresLaterPhones(ps: seq<Phone>, oldPhone: Phone, newPhone: Phone, k: int)
    requires 0 < k < |ps| && ps[k].value == oldPhone.value && ps[0].value != oldPhone.value
    ensures ChangedPhones(ps, oldPhone, newPhone) == ps
    ensures ChangeReply(ps, oldPhone, newPhone) == Some("Phone number '" + oldPhone.value + "' was not found in the record")
  {
  }

  /** A successful change keeps the length, drops the first phone and adds the new one at the end. */
  lemma ChangeKeepsTheRest(ps: seq<Phone>, oldPhone: Phone, newPhone: Phone)
    requires |ps| > 0 && ps[0].value == oldPhone.value
    ensures |ChangedPhones(ps, oldPhone, newPhone)| == |ps|
    ensures multiset(ChangedPhones(ps, oldPhone, newPhone)) == multiset(ps) - multiset{ps[0]} + multiset{newPhone}
    ensures ChangedPhones(ps, oldPhone, newPhone)[|ps| - 1] == newPhone
  {
    assert ps == [ps[0]] + ps[1..];
  }

  // ---------------------------------------------------------------------------
  // remove_phone(phone)
  // ---------------------------------------------------------------------------

  /** The position of the first phone whose value is `v`. */
  function FirstWithValue(ps: seq<Phone>, v: string): (r: Option<nat>)
    ensures r.Some? ==> r.value < |ps| && ps[r.value].value == v
    ensures r.Some? ==> forall k :: 0 <= k < r.value ==> ps[k].value != v
    ensures r.None? ==> forall k :: 0 <= k < |ps| ==> ps[k].value != v
  {
    if ps == [] then None
    else if ps[0].value == v then Some(0)
    else match FirstWithValue(ps[1..], v)
      case None => None
      case Some(i) => Some(i + 1)
  }

  /** The phone list after `remove_phone(v)`: the first phone with value `v` taken out, if any. */
  function WithoutFirst(ps: seq<Phone>, v: string): (r: seq<Phone>)
    ensures |r| == if FirstWithValue(ps, v).Some? then |ps| - 1 else |ps|
    ensures forall p :: p in r ==> p in ps
  {
    match FirstWithValue(ps, v)
    case None => ps
    case Some(i) => ps[..i] + ps[i + 1..]
  }

  /**
   * `remove_phone` deletes exactly one phone, the first with value `v`, and
   * keeps every other phone in order; without such a phone nothing changes.
   */
  lemma WithoutFirstEffect(ps: seq<Phone>, v: string)
    ensures (forall k :: 0 <= k < |ps| ==> ps[k].value != v) ==> WithoutFirst(ps, v) == ps
    ensures (exists k :: 0 <= k < |ps| && ps[k].value == v) ==>
      exists i :: 0 <= i < |ps| && ps[i] == Phone(v) && (forall k :: 0 <= k < i ==> ps[k].value != v)
        && WithoutFirst(ps, v) == ps[..i] + ps[i + 1..]
    ensures (exists k :: 0 <= k < |ps| && ps[k].value == v) ==>
      |WithoutFirst(ps, v)| == |ps| - 1 && multiset(WithoutFirst(ps, v)) + multiset{Phone(v)} == multiset(ps)
  {
    match FirstWithValue(ps, v)
    case None =>
    case Some(i) =>
      assert ps[i] == Phone(v);
      assert ps == ps[..i] + [ps[i]] + ps[i + 1..];
      assert multiset(ps) == multiset(ps[..i] + ps[i + 1..]) + multiset{ps[i]} by {
        assert ps == ps[..i] + ([ps[i]] + ps[i + 1..]);
      }
  }

  // ---------------------------------------------------------------------------
  // days_to_birthday()
  // ---------------------------------------------------------------------------

  /**
   * The day count `days_to_birthday` reports, with "today" given: this year's
   * occurrence if it is strictly ahead, otherwise next year's; each
   * `replace(year=...)` raises `ValueError` when the day does not exist then.
   */
  function BirthdayDelta(bd: CalendarDate, today: CalendarDate): (r: Result<int>)
    ensures r.Err? ==> r.error == ValueError
    ensures r.Ok? ==> r.value >= 1
  {
    match ReplaceYear(bd, today.year)
    case Err(e) => Err(e)
    case Ok(thisYear) =>
      var delta := Ordinal(thisYear) - Ordinal(today);
      if delta > 0 then Ok(delta)
      else
        match ReplaceYear(thisYear, today.year + 1)
        case Err(e) => Err(e)
        case Ok(nextYear) =>
          OrdinalAcrossYears(today, nextYear);
          Ok(Ordinal(nextYear) - Ordinal(today))
  }

  /** The year of the next occurrence strictly after today. */
  function NextOccurrenceYear(bd: Date, today: Date): int
  {
    if EarlierInYear(today, bd) then today.year else today.year + 1
  }

  /** The reported count is the distance to the first occurrence of the birthday strictly after today. */
  lemma BirthdayDeltaIsNextOccurrence(bd: CalendarDate, today: CalendarDate)
    requires BirthdayDelta(bd, today).Ok?
    ensures var y := NextOccurrenceYear(bd, today);
      IsValid(Date(y, bd.month, bd.day))
      && BirthdayDelta(bd, today).value == Ordinal(Date(y, bd.month, bd.day)) - Ordinal(today)
  {
    var thisYear := Date(today.year, bd.month, bd.day);
    OrdinalOrder(today, thisYear);
  }

  /** The count is never 0 and at most 366. */
  lemma BirthdayDeltaRange(bd: CalendarDate, today: CalendarDate)
    requires BirthdayDelta(bd, today).Ok?
    ensures 1 <= BirthdayDelta(bd, today).value <= 366
  {
    var thisYear := Date(today.year, bd.month, bd.day);
    var nextYear := Date(today.year + 1, bd.month, bd.day);
    OrdinalOrder(today, thisYear);
    if !EarlierInYear(today, thisYear) {
      OrdinalNextYear(thisYear);
      OrdinalAcrossYears(today, nextYear);
    }
  }

  /** A birthday falling on today is reported a full year ahead: 365 or 366 days. */
  lemma BirthdayDeltaToday(bd: CalendarDate, today: CalendarDate)
    requires bd.month == today.month && bd.day == today.day
    requires BirthdayDelta(bd, today).Ok?
    ensures BirthdayDelta(bd, today).value
         == if today.month <= 2 then DaysInYear(today.year) else DaysInYear(today.year + 1)
  {
    assert Date(today.year, bd.month, bd.day) == today;
    OrdinalNextYear(today);
  }

  /**
   * Before year 9999 the computation fails exactly for a February 29 birthday
   * when the current year is not a leap year, or when this year's February 29
   * is today or already past (next year has none); the failure is a `ValueError`.
   */
  lemma BirthdayDeltaFailure(bd: CalendarDate, today: CalendarDate)
    requires today.year < MaxYear
    ensures BirthdayDelta(bd, today).Err? <==>
      bd.month == 2 && bd.day == 29 && !(IsLeapYear(today.year) && EarlierInYear(today, bd))
    ensures BirthdayDelta(bd, today).Err? ==> BirthdayDelta(bd, today).error == ValueError
  {
    var thisYear := Date(today.year, bd.month, bd.day);
    if IsValid(thisYear) {
      OrdinalOrder(today, thisYear);
      if bd.month == 2 && bd.day == 29 {
        assert IsLeapYear(today.year);
        assert !IsLeapYear(today.year + 1);
      }
    }
  }

  /** In year 9999 a birthday that is today or already past has no next occurrence: `ValueError`. */
  lemma BirthdayDeltaLastYear(bd: CalendarDate, today: CalendarDate)
    requires today.year == MaxYear && !EarlierInYear(today, bd)
    ensures BirthdayDelta(bd, today) == Err(ValueError)
  {
    var thisYear := Date(today.year, bd.month, bd.day);
    if IsValid(thisYear) {
      OrdinalOrder(today, thisYear);
    }
  }

  /** A 1 January birthday seen on 31 December is one day away. */
  lemma BirthdayDeltaNewYearsEve()
    ensures BirthdayDelta(Date(1990, 1, 1), Date(2023, 12, 31)) == Ok(1)
  {
    assert DaysBeforeYear(2023) == 738520;
    assert DaysBeforeYear(2024) == 738885;
  }

  /** A 1 January birthday seen on 1 January is a year away, not 0 days. */
  lemma BirthdayDeltaNewYearsDay()
    ensures BirthdayDelta(Date(1990, 1, 1), Date(2023, 1, 1)) == Ok(365)
    ensures BirthdayDelta(Date(1990, 1, 1), Date(2024, 1, 1)) == Ok(366)
  {
    assert DaysBeforeYear(2023) == 738520;
    assert DaysBeforeYear(2024) == 738885;
    assert DaysBeforeYear(2025) == 739251;
  }

  /** A February 29 birthday in a common year raises. */
  lemma BirthdayDeltaLeapDay()
    ensures BirthdayDelta(Date(2000, 2, 29), Date(2023, 1, 1)) == Err(ValueError)
  {
  }

  // ---------------------------------------------------------------------------
  // Record
  // ---------------------------------------------------------------------------

  /** A contact record whose phone list, birthday and email change in place. */
  class Record {
    const name: Name
    var phones: seq<Phone>
    var birthday: Option<Birthday>
    var email: Option<Email>

    function View(): Contact
      reads this
    {
      Contact(name, phones, birthday, email)
    }

    /** The phone list starts empty, or with the one phone given. */
    constructor (name: Name, phone: Option<Phone>, birthday: Option<Birthday>, email: Option<Email>)
      ensures View() == Contact(name, if phone.Some? then [phone.value] else [], birthday, email)
    {
      this.birthday := birthday;
      this.email := email;
      this.name := name;
      this.phones := [];
      if phone.Some? {
        this.phones := this.phones + [phone.value];
      }
    }

    /** `add_phone`: appends, with no duplicate check. */
    method AddPhone(phone: Phone) returns (msg: string)
      modifies this
      ensures View() == old(View()).(phones := old(phones) + [phone])
      ensures msg == "Phone " + phone.value + " was added successfully"
    {
      phones := phones + [phone];
      msg := "Phone " + phone.value + " was added successfully";
    }

    /** `change`: decided by the first phone alone; `None` for an empty list. */
    method Change(oldPhone: Phone, newPhone: Phone) returns (msg: Option<string>)
      modifies this
      ensures View() == old(View()).(phones := ChangedPhones(old(phones), oldPhone, newPhone))
      ensures old(phones) == [] ==> msg == None
      ensures old(phones) != [] && old(phones)[0].value == oldPhone.value ==>
        msg == Some("Phone " + oldPhone.value + " was successfully changed to " + newPhone.value)
      ensures old(phones) != [] && old(phones)[0].value != oldPhone.value ==>
        msg == Some("Phone number '" + oldPhone.value + "' was not found in the record")
    {
      // The source's loop returns on its first iteration on both branches.
      if |phones| == 0 {
        msg := None;
      } else if phones[0].value == oldPhone.value {
        phones := phones[1..] + [newPhone];
        msg := Some("Phone " + oldPhone.value + " was successfully changed to " + newPhone.value);
      } else {
        msg := Some("Phone number '" + oldPhone.value + "' was not found in the record");
      }
    }

    /** `add_birthday`: overwrites. */
    method AddBirthday(b: Birthday)
      modifies this
      ensures View() == old(View()).(birthday := Some(b))
    {
      birthday := Some(b);
    }

    /** `add_email`: overwrites. */
    method AddEmail(e: Email)
      modifies this
      ensures View() == old(View()).(email := Some(e))
    {
      email := Some(e);
    }

    /** `days_to_birthday`, with the current date passed in. */
    function DaysToBirthday(today: CalendarDate): (r: Result<string>)
      reads this
      ensures birthday.None? ==> r == Ok(name.value + "'s birthday is unknown")
      ensures birthday.Some? ==> (r.Ok? <==> BirthdayDelta(birthday.value.value, today).Ok?)
      ensures birthday.Some? && r.Err? ==> r.error == ValueError
      ensures birthday.Some? && r.Ok? ==>
        r.value == name.value + "'s birthday will be in " + NatToString(BirthdayDelta(birthday.value.value, today).value) + " days"
    {
      match birthday
      case None => Ok(name.value + "'s birthday is unknown")
      case Some(b) =>
        match BirthdayDelta(b.value, today)
        case Err(e) => Err(e)
        case Ok(delta) =>
          BirthdayDeltaRange(b.value, today);
          Ok(name.value + "'s birthday will be in " + NatToString(delta) + " days")
    }

    /** `show_contact_info`. */
    function ShowContactInfo(): (info: ContactInfo)
      reads this
      ensures info.name == name.value && info.birthday == birthday && info.email == email
    {
      ContactInfo(name.value, Join(", ", PhoneValues(phones)), birthday, email)
    }

    /** `remove_phone`: scans in order and removes the first phone with value `v`. */
    method RemovePhone(v: string) returns (msg: string)
      modifies this
      ensures View() == old(View()).(phones := WithoutFirst(old(phones), v))
      ensures FirstWithValue(old(phones), v).Some? ==>
        msg == "Phone " + v + " was successfully removed from " + name.value
      ensures FirstWithValue(old(phones), v).None? ==> msg == "Number " + v + " not found"
    {
      var phone := Phone(v);
      var i := 0;
      while i < |phones|
        invariant 0 <= i <= |phones|
        invariant forall k :: 0 <= k < i ==> phones[k].value != phone.value
      {
        if phones[i].value == phone.value {
          assert FirstWithValue(phones, v) == Some(i);
          var ph := phones[i];
          phones := phones[..i] + phones[i + 1..];
          msg := "Phone " + ph.value + " was successfully removed from " + name.value;
          return;
        }
        i := i + 1;
      }
      msg := "Number " + phone.value + " not found";
    }
  }
}
