/**
 * The address book (main.py, class AddressBook): a dictionary from a
 * contact's name to its Record. Python dictionaries remember insertion
 * order, and overwriting a key keeps its place; the book is therefore a
 * key sequence (the order) beside a map (the contents).
 */
module Book {
  import opened Results
  import opened Calendar
  import opened Fields
  import opened Records
  import opened Birthdays

  const RECORD_NOT_FOUND := "Record not found"

  // ------------------------------------------------------------ key order

  predicate Distinct(ks: seq<string>) {
    forall i, j :: 0 <= i < j < |ks| ==> ks[i] != ks[j]
  }

  /** The order after `d[k] = v`: a new key goes last, an existing one keeps its place. */
  function InsertKey(ks: seq<string>, k: string): seq<string> {
    if k in ks then ks else ks + [k]
  }

  /** The order after `del d[k]`: the others keep their relative order. */
  function RemoveKey(ks: seq<string>, k: string): seq<string> {
    if ks == [] then []
    else (if ks[0] == k then [] else [ks[0]]) + RemoveKey(ks[1..], k)
  }

  /** Inserting keeps the keys distinct and the existing order as a prefix. */
  lemma InsertKeyOrder(ks: seq<string>, k: string)
    requires Distinct(ks)
    ensures Distinct(InsertKey(ks, k))
    ensures forall x :: x in InsertKey(ks, k) <==> x in ks || x == k
    ensures InsertKey(ks, k)[..|ks|] == ks
    ensures k in ks ==> InsertKey(ks, k) == ks
  {
    assert (ks + [k])[..|ks|] == ks;
  }

  lemma {:induction false} RemoveKeyMembers(ks: seq<string>, k: string)
    ensures forall x :: x in RemoveKey(ks, k) <==> x in ks && x != k
  {
    if ks != [] {
      RemoveKeyMembers(ks[1..], k);
      assert ks == [ks[0]] + ks[1..];
    }
  }

  /** Deleting a present key cuts the order at exactly its position. */
  lemma {:induction false} RemoveKeyAt(ks: seq<string>, k: string, i: int)
    requires Distinct(ks) && 0 <= i < |ks| && ks[i] == k
    ensures RemoveKey(ks, k) == ks[..i] + ks[i + 1..]
  {
    if i == 0 {
      RemoveKeyAbsent(ks[1..], k);
    } else {
      RemoveKeyAt(ks[1..], k, i - 1);
      assert ks[..i] == [ks[0]] + ks[1..][..i - 1];
      assert ks[i + 1..] == ks[1..][i..];
    }
  }

  lemma {:induction false} RemoveKeyAbsent(ks: seq<string>, k: string)
    requires k !in ks
    ensures RemoveKey(ks, k) == ks
  {
    if ks != [] {
      assert ks[0] in ks;
      assert forall x :: x in ks[1..] ==> x in ks;
      RemoveKeyAbsent(ks[1..], k);
      assert ks == [ks[0]] + ks[1..];
    }
  }

  lemma RemoveKeyDistinct(ks: seq<string>, k: string)
    requires Distinct(ks)
    ensures Distinct(RemoveKey(ks, k))
  {
    if k in ks {
      var i :| 0 <= i < |ks| && ks[i] == k;
      RemoveKeyAt(ks, k, i);
    } else {
      RemoveKeyAbsent(ks, k);
    }
  }

  // ------------------------------------------------------------ lookups

  /** `AddressBook.find`: the record under the key, or KeyError. */
  function Lookup<V>(m: map<string, V>, key: string): (r: Result<V>)
    ensures r.Ok? <==> key in m
    ensures r.Ok? ==> r.value == m[key]
    ensures r.Err? ==> r.error == KeyError(RECORD_NOT_FOUND)
  {
    if key in m then Ok(m[key]) else Err(KeyError(RECORD_NOT_FOUND))
  }

  /** After `add_record`, `find` by that name gives the record just added; other names are unaffected. */
  lemma FindAfterAdd<V>(m: map<string, V>, key: string, v: V, other: string)
    requires other != key
    ensures Lookup(m[key := v], key) == Ok(v)
    ensures Lookup(m[key := v], other) == Lookup(m, other)
  {
  }

  /** After deleting a name, `find` by it raises KeyError; other names are unaffected. */
  lemma FindAfterDelete<V>(m: map<string, V>, key: string, other: string)
    requires other != key
    ensures Lookup(m - {key}, key) == Err(KeyError(RECORD_NOT_FOUND))
    ensures Lookup(m - {key}, other) == Lookup(m, other)
  {
  }

  /** The entries the birthday query visits: each key's record, in key order. */
  ghost function EntriesOf(ks: seq<string>, m: map<string, Record>): (es: seq<Entry>)
    reads m.Values
    requires forall k :: k in ks ==> k in m
    ensures |es| == |ks|
  {
    if ks == [] then []
    else
      var k := ks[|ks| - 1];
      EntriesOf(ks[..|ks| - 1], m) + [Entry(m[k].name.value, m[k].birthday)]
  }

  /** The entry at position i is read from the record under the i-th key. */
  lemma {:induction false} EntryAt(ks: seq<string>, m: map<string, Record>, i: int)
    requires forall k :: k in ks ==> k in m
    requires 0 <= i < |ks|
    ensures EntriesOf(ks, m)[i] == Entry(m[ks[i]].name.value, m[ks[i]].birthday)
  {
    if i < |ks| - 1 {
      EntryAt(ks[..|ks| - 1], m, i);
    }
  }

  class AddressBook {
    /** The insertion order of the dictionary's keys. */
    var keys: seq<string>
    /** `self.data`. */
    var data: map<string, Record>

    /** Keys are unique, the order lists exactly the stored names, and each record sits under its own name. */
    ghost predicate Valid()
      reads this
    {
      Distinct(keys)
      && (forall k :: k in data <==> k in keys)
      && (forall k :: k in data ==> data[k].name.value == k)
    }

    constructor ()
      ensures Valid() && keys == [] && data == map[]
    {
      keys := [];
      data := map[];
    }

    /** `add_record`: last write wins; an overwritten name keeps its place in the order. */
    method AddRecord(rec: Record)
      requires Valid()
      modifies this
      ensures Valid()
      ensures data == old(data)[rec.name.value := rec]
      ensures keys == InsertKey(old(keys), rec.name.value)
    {
      InsertKeyOrder(keys, rec.name.value);
      keys := InsertKey(keys, rec.name.value);
      data := data[rec.name.value := rec];
    }

    function Find(key: string): (r: Result<Record>)
      reads this
      ensures r == Lookup(data, key)
    {
      Lookup(data, key)
    }

    /** `delete_record`: reports the outcome as a message and never raises. */
    method DeleteRecord(name: string) returns (msg: string)
      requires Valid()
      modifies this
      ensures Valid()
      ensures name in old(data) ==>
        msg == "Contact " + name + " deleted" && data == old(data) - {name} && keys == RemoveKey(old(keys), name)
      ensures name !in old(data) ==>
        msg == "Contact " + name + " not found" && data == old(data) && keys == old(keys)
    {
      if name in data {
        RemoveKeyMembers(keys, name);
        RemoveKeyDistinct(keys, name);
        keys := RemoveKey(keys, name);
        data := data - {name};
        return "Contact " + name + " deleted";
      } else {
        return "Contact " + name + " not found";
      }
    }

    /** `get_upcoming_birthdays` with `today` passed in: visits the records in book order. */
    method UpcomingBirthdays(today: Date) returns (r: Result<seq<Upcoming>>)
      requires Valid() && IsValid(today)
      ensures r == UpcomingOf(EntriesOf(keys, data), today)
    {
      ghost var es := EntriesOf(keys, data);
      var found: seq<Upcoming> := [];
      var i := 0;
      while i < |keys|
        invariant 0 <= i <= |keys| == |es|
        invariant UpcomingOf(es[..i], today) == Ok(found)
      {
        var rec := data[keys[i]];
        var e := Entry(rec.name.value, rec.birthday);
        EntryAt(keys, data, i);
        assert e == es[i];
        var visited := Visit(e, today);
        if visited.Err? {
          VisitFails(es, i, today);
          return Err(visited.error);
        }
        VisitAppends(es[..i], e, today, found);
        assert es[..i] + [e] == es[..i + 1];
        found := found + visited.value;
        i := i + 1;
      }
      assert es[..i] == es;
      return Ok(found);
    }
  }

  /**
   * The `add` command (main.py, add_contact): a new record with one phone,
   * stored under its name. A bad name or phone raises before the book is
   * touched; an existing contact of that name is replaced, losing its phones.
   */
  method AddContact(book: AddressBook, name: string, phone: string) returns (r: Result<string>)
    requires book.Valid()
    modifies book
    ensures book.Valid()
    ensures r.Ok? <==> |name| != 0 && IsPhoneNumber(phone)
    ensures r.Ok? ==> r.value == "Contact " + name + " added with phone number " + phone
    ensures r.Ok? ==> book.keys == InsertKey(old(book.keys), name) && name in book.data
    ensures r.Ok? ==> fresh(book.data[name]) && book.data[name].phones == [Phone(phone)] && book.data[name].birthday == None
    ensures r.Ok? ==> forall k :: k in old(book.data) && k != name ==> k in book.data && book.data[k] == old(book.data)[k]
    ensures r.Err? ==> book.keys == old(book.keys) && book.data == old(book.data)
    ensures |name| == 0 ==> r == Err(ValueError(NAME_EMPTY))
    ensures |name| != 0 && !IsPhoneNumber(phone) ==> r == Err(ValueError(INVALID_PHONE))
  {
    var created := NewRecord(name);
    if created.Err? {
      return Err(created.error);
    }
    var rec := created.value;
    var added := rec.AddPhone(phone);
    if added.Fail? {
      return Err(added.error);
    }
    book.AddRecord(rec);
    return Ok("Contact " + name + " added with phone number " + phone);
  }
}
