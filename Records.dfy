/**
 * One contact (main.py, class Record): a fixed name, an ordered list of
 * phones that may repeat, and an optional birthday. The list operations are
 * first specified as functions on the phone sequence; the class's methods
 * change the record in place and are proved to agree with them.
 */
module Records {
  import opened Results
  import opened Calendar
  import opened Fields

  const PHONE_NOT_FOUND := "Phone number not found"

  /** What a phone operation reports, and the phone list it leaves behind. */
  datatype PhonesUpdate = PhonesUpdate(outcome: Outcome, phones: seq<Phone>)

  /** Some stored phone holds exactly this string (no validation of `number`). */
  predicate HasPhone(s: seq<Phone>, number: string) {
    exists i :: 0 <= i < |s| && s[i].value == number
  }

  /** Position of the first occurrence of p. */
  function FirstIndex(s: seq<Phone>, p: Phone): (i: nat)
    requires p in s
    ensures i < |s| && s[i] == p && p !in s[..i]
  {
    if s[0] == p then 0
    else
      var i := FirstIndex(s[1..], p) + 1;
      assert s[..i] == [s[0]] + s[1..][..i - 1];
      i
  }

  /** `list.remove(p)` without its exception: drop the first element equal to p, if any. */
  function RemoveFirst(s: seq<Phone>, p: Phone): seq<Phone>
  {
    if s == [] then []
    else if s[0] == p then s[1..]
    else [s[0]] + RemoveFirst(s[1..], p)
  }

  /** Removing the first occurrence cuts the sequence at exactly that position. */
  lemma {:induction false} RemoveFirstAt(s: seq<Phone>, p: Phone, i: nat)
    requires i < |s| && s[i] == p && p !in s[..i]
    ensures RemoveFirst(s, p) == s[..i] + s[i + 1..]
  {
    if i > 0 {
      assert s[0] in s[..i];
      assert s[1..][..i - 1] == s[..i][1..];
      RemoveFirstAt(s[1..], p, i - 1);
      assert s[..i] == [s[0]] + s[1..][..i - 1];
      assert s[i + 1..] == s[1..][i..];
    }
  }

  /** With nothing equal to p, the sequence is left alone. */
  lemma {:induction false} RemoveFirstAbsent(s: seq<Phone>, p: Phone)
    requires p !in s
    ensures RemoveFirst(s, p) == s
  {
    if s != [] {
      assert s[0] in s;
      assert forall x :: x in s[1..] ==> x in s;
      RemoveFirstAbsent(s[1..], p);
      assert s == [s[0]] + s[1..];
    }
  }

  /** Exactly one copy of p goes, if there is one; nothing else changes in number. */
  lemma {:induction false} RemoveFirstCount(s: seq<Phone>, p: Phone)
    ensures multiset(RemoveFirst(s, p)) == multiset(s) - multiset{p}
  {
    if s != [] {
      assert s == [s[0]] + s[1..];
      RemoveFirstCount(s[1..], p);
    }
  }

  lemma RemoveFirstFacts(s: seq<Phone>, p: Phone)
    ensures p in s ==> var i := FirstIndex(s, p); RemoveFirst(s, p) == s[..i] + s[i + 1..]
    ensures p !in s ==> RemoveFirst(s, p) == s
    ensures multiset(RemoveFirst(s, p)) == multiset(s) - multiset{p}
  {
    RemoveFirstCount(s, p);
    if p in s {
      RemoveFirstAt(s, p, FirstIndex(s, p));
    } else {
      RemoveFirstAbsent(s, p);
    }
  }

  /** Removal only drops elements, so every remaining phone was stored before. */
  lemma RemoveFirstSubset(s: seq<Phone>, p: Phone)
    ensures forall x :: x in RemoveFirst(s, p) ==> x in s
  {
    RemoveFirstCount(s, p);
    forall x | x in RemoveFirst(s, p) ensures x in s {
      assert x in multiset(RemoveFirst(s, p));
    }
  }

  /** `Record.add_phone`: validate, then append at the end; duplicates are allowed. */
  function AddPhoneTo(s: seq<Phone>, number: string): (u: PhonesUpdate)
    ensures u.outcome.Pass? <==> IsPhoneNumber(number)
    ensures u.outcome.Pass? ==> |u.phones| == |s| + 1 && u.phones[..|s|] == s && u.phones[|s|] == Phone(number)
    ensures u.outcome.Pass? ==> multiset(u.phones) == multiset(s) + multiset{Phone(number)}
    ensures u.outcome.Fail? ==> u.phones == s && u.outcome.error == ValueError(INVALID_PHONE)
  {
    match NewPhone(number)
    case Err(e) => PhonesUpdate(Fail(e), s)
    case Ok(p) =>
      assert (s + [p])[..|s|] == s;
      PhonesUpdate(Pass, s + [p])
  }

  /**
   * `Record.remove_phone`: validate (raising before the list is touched),
   * then remove the first equal phone, silently doing nothing if none is.
   */
  function RemovePhoneFrom(s: seq<Phone>, number: string): (u: PhonesUpdate)
    ensures u.outcome.Pass? <==> IsPhoneNumber(number)
    ensures u.outcome.Fail? ==> u.phones == s && u.outcome.error == ValueError(INVALID_PHONE)
    ensures u.outcome.Pass? && Phone(number) !in s ==> u.phones == s
    ensures u.outcome.Pass? && Phone(number) in s ==>
      var i := FirstIndex(s, Phone(number)); u.phones == s[..i] + s[i + 1..]
    ensures u.outcome.Pass? ==> multiset(u.phones) == multiset(s) - multiset{Phone(number)}
  {
    match NewPhone(number)
    case Err(e) => PhonesUpdate(Fail(e), s)
    case Ok(p) =>
      RemoveFirstFacts(s, p);
      PhonesUpdate(Pass, RemoveFirst(s, p))
  }

  /**
   * `Record.edit_phone`: `remove_phone(old)` then `add_phone(new)`, not
   * atomic: `new` is validated only after `old` has been removed.
   */
  function EditPhoneIn(s: seq<Phone>, oldNumber: string, newNumber: string): (u: PhonesUpdate)
    ensures !IsPhoneNumber(oldNumber) ==> u == PhonesUpdate(Fail(ValueError(INVALID_PHONE)), s)
    ensures IsPhoneNumber(oldNumber) && IsPhoneNumber(newNumber) ==>
      u == PhonesUpdate(Pass, RemoveFirst(s, Phone(oldNumber)) + [Phone(newNumber)])
    ensures IsPhoneNumber(oldNumber) && !IsPhoneNumber(newNumber) ==>
      u == PhonesUpdate(Fail(ValueError(INVALID_PHONE)), RemoveFirst(s, Phone(oldNumber)))
  {
    var removed := RemovePhoneFrom(s, oldNumber);
    if removed.outcome.Fail? then removed
    else
      RemoveFirstFacts(s, Phone(oldNumber));
      AddPhoneTo(removed.phones, newNumber)
  }

  /**
   * The non-atomic edit: with a valid old number that is present and an
   * invalid new one, the call fails yet the old phone is already gone.
   */
  lemma EditLosesOldOnInvalidNew(s: seq<Phone>, oldNumber: string, newNumber: string)
    requires IsPhoneNumber(oldNumber) && !IsPhoneNumber(newNumber) && Phone(oldNumber) in s
    ensures EditPhoneIn(s, oldNumber, newNumber).outcome.Fail?
    ensures |EditPhoneIn(s, oldNumber, newNumber).phones| == |s| - 1
    ensures multiset(EditPhoneIn(s, oldNumber, newNumber).phones)[Phone(oldNumber)] == multiset(s)[Phone(oldNumber)] - 1
  {
    var t := EditPhoneIn(s, oldNumber, newNumber).phones;
    RemoveFirstCount(s, Phone(oldNumber));
    assert |multiset(t)| == |multiset(s)| - 1;
  }

  /**
   * Editing a phone that is stored once into a different valid number:
   * afterwards the new number is found and the old one is not.
   */
  lemma EditThenFind(s: seq<Phone>, oldNumber: string, newNumber: string)
    requires IsPhoneNumber(oldNumber) && IsPhoneNumber(newNumber) && oldNumber != newNumber
    requires multiset(s)[Phone(oldNumber)] == 1
    ensures EditPhoneIn(s, oldNumber, newNumber).outcome == Pass
    ensures HasPhone(EditPhoneIn(s, oldNumber, newNumber).phones, newNumber)
    ensures !HasPhone(EditPhoneIn(s, oldNumber, newNumber).phones, oldNumber)
  {
    var t := EditPhoneIn(s, oldNumber, newNumber).phones;
    assert t[|t| - 1] == Phone(newNumber);
    RemoveFirstCount(s, Phone(oldNumber));
    assert multiset(t)[Phone(oldNumber)] == 0;
  }

  /** A contact. `name` never changes; `phones` and `birthday` are updated in place. */
  class Record {
    const name: Name
    var phones: seq<Phone>
    var birthday: Option<Date>

    /** What the operations keep: a non-empty name, valid phones, a valid birthday. */
    ghost predicate Valid()
      reads this
    {
      |name.value| != 0
      && (forall p :: p in phones ==> IsPhoneNumber(p.value))
      && (birthday.Some? ==> IsValid(birthday.value))
    }

    /** `Record(name)` once the name has passed validation; see NewRecord. */
    constructor (name: Name)
      requires |name.value| != 0
      ensures Valid()
      ensures this.name == name && phones == [] && birthday == None
    {
      this.name := name;
      phones := [];
      birthday := None;
    }

    method AddPhone(number: string) returns (r: Outcome)
      modifies this`phones
      ensures PhonesUpdate(r, phones) == AddPhoneTo(old(phones), number)
      ensures old(Valid()) ==> Valid()
    {
      match NewPhone(number)
      case Err(e) =>
        return Fail(e);
      case Ok(p) =>
        phones := phones + [p];
        return Pass;
    }

    /** Scans the list in order and removes the first equal phone, as the loop with `break` does. */
    method RemovePhone(number: string) returns (r: Outcome)
      modifies this`phones
      ensures PhonesUpdate(r, phones) == RemovePhoneFrom(old(phones), number)
      ensures old(Valid()) ==> Valid()
    {
      var found := NewPhone(number);
      if found.Err? {
        return Fail(found.error);
      }
      var p := found.value;
      var i := 0;
      while i < |phones|
        invariant 0 <= i <= |phones|
        invariant p !in phones[..i]
      {
        if phones[i] == p {
          break;
        }
        assert phones[..i + 1] == phones[..i] + [phones[i]];
        i := i + 1;
      }
      ghost var before := phones;
      if i < |phones| {
        RemoveFirstAt(phones, p, i);
        phones := phones[..i] + phones[i + 1..];
      } else {
        assert phones[..i] == phones;
        RemoveFirstAbsent(phones, p);
      }
      assert phones == RemoveFirst(before, p);
      RemoveFirstSubset(before, p);
      return Pass;
    }

    method EditPhone(oldNumber: string, newNumber: string) returns (r: Outcome)
      modifies this`phones
      ensures PhonesUpdate(r, phones) == EditPhoneIn(old(phones), oldNumber, newNumber)
      ensures old(Valid()) ==> Valid()
    {
      r := RemovePhone(oldNumber);
      if r.Fail? {
        return;
      }
      r := AddPhone(newNumber);
    }

    /** The first stored phone whose string equals `number`; the argument is not validated. */
    method FindPhone(number: string) returns (r: Result<Phone>)
      ensures r.Ok? <==> HasPhone(phones, number)
      ensures r.Ok? ==> r.value.value == number && r.value in phones
      ensures r.Err? ==> r.error == ValueError(PHONE_NOT_FOUND)
    {
      var i := 0;
      while i < |phones|
        invariant 0 <= i <= |phones|
        invariant forall j :: 0 <= j < i ==> phones[j].value != number
      {
        if phones[i].value == number {
          return Ok(phones[i]);
        }
        i := i + 1;
      }
      return Err(ValueError(PHONE_NOT_FOUND));
    }

    /** `Record.add_birthday`: parse, then set or overwrite; a bad date leaves the old one. */
    method AddBirthday(text: string) returns (r: Outcome)
      modifies this`birthday
      ensures ParseBirthday(text).Ok? ==> r == Pass && birthday == Some(ParseBirthday(text).value)
      ensures ParseBirthday(text).Err? ==> r == Fail(ParseBirthday(text).error) && birthday == old(birthday)
      ensures old(Valid()) ==> Valid()
    {
      match ParseBirthday(text)
      case Err(e) =>
        return Fail(e);
      case Ok(d) =>
        birthday := Some(d);
        return Pass;
    }
  }

  /** `Record(name)`: a new record with no phones and no birthday, or the Name ValueError. */
  method NewRecord(name: string) returns (r: Result<Record>)
    ensures r.Ok? <==> |name| != 0
    ensures r.Err? ==> r.error == ValueError(NAME_EMPTY)
    ensures r.Ok? ==> fresh(r.value) && r.value.Valid()
    ensures r.Ok? ==> r.value.name == Name(name) && r.value.phones == [] && r.value.birthday == None
  {
    match NewName(name)
    case Err(e) =>
      return Err(e);
    case Ok(n) =>
      var rec := new Record(n);
      return Ok(rec);
  }
}
