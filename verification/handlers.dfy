/**
 * The module-level command handlers that sit on the store: `add_record`,
 * `change_func` and `search_func`. Each returns the updated book (the Python
 * code mutates it in place) together with the reply string.
 */
module Handlers {
  import opened Wrappers
  import opened Fields
  import opened Seqs
  import opened Text
  import opened Records
  import opened AddressBooks

  /** The book after a command and the text the command returns. */
  datatype Reply = Reply(book: AddressBook, message: string)

  const NoMatchesMessage: string := "No matching records found."

  /**
   * Module-level `add_record`: a new record with the given name, birthday and
   * single phone replaces any record of that name. The phone is stored even
   * when the validator rejects it.
   */
  function AddRecordCommand(b: AddressBook, name: string, phone: string, birthday: Option<string>): (reply: Reply)
    ensures GetRecord(reply.book, name) == Some(Record(name, [phone], birthday))
    ensures forall k :: k != name ==> GetRecord(reply.book, k) == GetRecord(b, k)
    ensures Keys(reply.book) == if name in Keys(b) then Keys(b) else Keys(b) + [name]
    ensures Valid(b) ==> Valid(reply.book)
    ensures reply.message == "Record added: " + name + " - " + phone
  {
    var record := AddPhone(NewRecord(name, birthday), phone);
    assert record.phones == [phone];
    Reply(AddRecord(b, record), "Record added: " + name + " - " + phone)
  }

  /** A phone the validator rejects, too long or empty, is still stored by the add command. */
  lemma AddStoresInvalidPhone(b: AddressBook, name: string, phone: string, birthday: Option<string>)
    requires !ValidatePhone(Some(phone))
    ensures |phone| == 0 || |phone| >= 12
    ensures GetRecord(AddRecordCommand(b, name, phone, birthday).book, name).value.phones == [phone]
  {
  }

  /**
   * `change_func`: toggles `newPhone` on the record called `name` (removing it
   * when present, appending it otherwise); an unknown name leaves the book alone.
   */
  function ChangeFunc(b: AddressBook, name: string, newPhone: string): (reply: Reply)
    ensures name !in Keys(b) ==> reply.book == b && reply.message == "Record not found for name: " + name
    ensures name in Keys(b) ==>
              && Keys(reply.book) == Keys(b)
              && GetRecord(reply.book, name) == Some(Toggle(GetRecord(b, name).value, newPhone))
              && (forall k :: k != name ==> GetRecord(reply.book, k) == GetRecord(b, k))
              && reply.message == "Phone number changed for " + name + ": " + newPhone
    ensures Valid(b) ==> Valid(reply.book)
  {
    match GetRecord(b, name)
    case Some(record) =>
      ChangeSinglePhone(record, newPhone);
      Reply(AddRecord(b, ChangePhones(record, [newPhone])),
            "Phone number changed for " + name + ": " + newPhone)
    case None =>
      Reply(b, "Record not found for name: " + name)
  }

  /** `change_func` on a known name replaces that name's entry in place by its toggled record. */
  lemma ChangeFuncInPlace(b: AddressBook, name: string, newPhone: string, i: nat)
    requires i < |b.entries| && b.entries[i].name == name
    requires forall j :: 0 <= j < i ==> b.entries[j].name != name
    ensures ChangeFunc(b, name, newPhone).book == AddressBook(b.entries[i := Toggle(b.entries[i], newPhone)])
  {
    assert FirstIndex(Keys(b), name) == i;
    ChangeSinglePhone(b.entries[i], newPhone);
  }

  /** Running `change_func` twice with a phone the contact does not hold gives the book back. */
  lemma {:induction false} ChangeTwiceRestores(b: AddressBook, name: string, newPhone: string)
    requires name in Keys(b) && newPhone !in GetRecord(b, name).value.phones
    ensures ChangeFunc(ChangeFunc(b, name, newPhone).book, name, newPhone).book == b
  {
    var i := FirstIndex(Keys(b), name);
    var rec := b.entries[i];
    var toggled := Toggle(rec, newPhone);
    var b1 := AddressBook(b.entries[i := toggled]);
    ChangeFuncInPlace(b, name, newPhone, i);
    assert forall j :: 0 <= j < i ==> b.entries[j].name != name by {
      assert forall j :: 0 <= j < i ==> Keys(b)[j] != name;
    }
    ChangeFuncInPlace(b1, name, newPhone, i);
    ToggleAbsentTwice(rec, newPhone);
    UpdateThenRestore(b.entries, i, toggled);
  }

  /** Some phone of `r` contains `coincidence`, ignoring case. */
  predicate PhoneHit(r: Record, coincidence: string)
  {
    exists i :: 0 <= i < |r.phones| && Contains(Lower(r.phones[i]), Lower(coincidence))
  }

  /** The name of `r` contains `coincidence`, ignoring case. */
  predicate NameHit(r: Record, coincidence: string)
  {
    Contains(Lower(r.name), Lower(coincidence))
  }

  /** The records the phone pass reports, in key order, each at most once. */
  function PhonePass(rs: seq<Record>, coincidence: string): (r: seq<Record>)
    ensures |r| <= |rs|
    ensures forall x :: x in r <==> x in rs && PhoneHit(x, coincidence)
  {
    Filter(rs, (r: Record) => PhoneHit(r, coincidence))
  }

  /** The records the name pass reports, in key order. */
  function NamePass(rs: seq<Record>, coincidence: string): (r: seq<Record>)
    ensures |r| <= |rs|
    ensures forall x :: x in r <==> x in rs && NameHit(x, coincidence)
  {
    Filter(rs, (r: Record) => NameHit(r, coincidence))
  }

  /** The inner loop of the phone pass: stops at the first phone containing the lowered query. */
  method ScanPhones(r: Record, query: string) returns (hit: bool)
    requires query == Lower(query)
    ensures hit <==> PhoneHit(r, query)
  {
    LowerIdempotent(query);
    var i := 0;
    while i < |r.phones|
      invariant 0 <= i <= |r.phones|
      invariant forall j :: 0 <= j < i ==> !Contains(Lower(r.phones[j]), query)
    {
      if Contains(Lower(r.phones[i]), query) {
        return true;
      }
      i := i + 1;
    }
    return false;
  }

  /**
   * `search_func`: the records reported by the phone pass followed by those
   * reported by the name pass, and the reply built from them with `info`
   * standing for `Record.get_info`.
   */
  method SearchFunc(b: AddressBook, coincidence: string, info: Record -> string)
    returns (found: seq<Record>, reply: string)
    ensures found == PhonePass(b.entries, coincidence) + NamePass(b.entries, coincidence)
    ensures |found| == 0 ==> reply == NoMatchesMessage
    ensures |found| > 0 ==> reply == JoinLines(Render(found, info))
  {
    var query := Lower(coincidence);
    LowerIdempotent(coincidence);
    var byPhone: seq<Record> := [];
    var i := 0;
    while i < |b.entries|
      invariant 0 <= i <= |b.entries|
      invariant byPhone == PhonePass(b.entries[..i], coincidence)
    {
      var hit := ScanPhones(b.entries[i], query);
      assert b.entries[..i + 1] == b.entries[..i] + [b.entries[i]];
      FilterSnoc(b.entries[..i], b.entries[i], (r: Record) => PhoneHit(r, coincidence));
      if hit {
        byPhone := byPhone + [b.entries[i]];
      }
      i := i + 1;
    }
    var byName: seq<Record> := [];
    i := 0;
    while i < |b.entries|
      invariant 0 <= i <= |b.entries|
      invariant byName == NamePass(b.entries[..i], coincidence)
    {
      assert b.entries[..i + 1] == b.entries[..i] + [b.entries[i]];
      FilterSnoc(b.entries[..i], b.entries[i], (r: Record) => NameHit(r, coincidence));
      if Contains(Lower(b.entries[i].name), query) {
        byName := byName + [b.entries[i]];
      }
      i := i + 1;
    }
    assert b.entries[..|b.entries|] == b.entries;
    found := byPhone + byName;
    if |found| == 0 {
      reply := NoMatchesMessage;
    } else {
      reply := JoinLines(Render(found, info));
    }
  }

  /** One summary line per record. */
  function Render(rs: seq<Record>, info: Record -> string): (lines: seq<string>)
    ensures |lines| == |rs|
    ensures forall i :: 0 <= i < |rs| ==> lines[i] == info(rs[i])
  {
    seq(|rs|, i requires 0 <= i < |rs| => info(rs[i]))
  }

  /**
   * `"\n".join(lines)`: the first line starts the text, the last line ends it,
   * and a single line comes back unchanged.
   */
  function JoinLines(lines: seq<string>): (r: string)
    ensures |lines| == 0 ==> r == ""
    ensures |lines| == 1 ==> r == lines[0]
    ensures |lines| > 0 ==> |lines[0]| <= |r| && r[..|lines[0]|] == lines[0]
    ensures |lines| > 0 ==> |lines[|lines| - 1]| <= |r| && r[|r| - |lines[|lines| - 1]|..] == lines[|lines| - 1]
    ensures |lines| > 1 ==> |r| > |lines[0]| && r[|lines[0]|] == '\n'
  {
    if |lines| == 0 then ""
    else if |lines| == 1 then lines[0]
    else JoinLines(lines[..|lines| - 1]) + "\n" + lines[|lines| - 1]
  }

  /**
   * A record is reported by `search_func` exactly when one of its phones or its
   * name contains the query, ignoring case; one matching both is reported twice.
   */
  lemma SearchMembership(b: AddressBook, coincidence: string, r: Record)
    ensures r in PhonePass(b.entries, coincidence) + NamePass(b.entries, coincidence)
            <==> r in b.entries && (PhoneHit(r, coincidence) || NameHit(r, coincidence))
    ensures r in b.entries && PhoneHit(r, coincidence) && NameHit(r, coincidence) ==>
              multiset(PhonePass(b.entries, coincidence) + NamePass(b.entries, coincidence))[r]
              == 2 * multiset(b.entries)[r]
  {
    FilterCount(b.entries, (r: Record) => PhoneHit(r, coincidence), r);
    FilterCount(b.entries, (r: Record) => NameHit(r, coincidence), r);
  }

  /** The case of the query does not matter. */
  lemma SearchIgnoresQueryCase(b: AddressBook, coincidence: string)
    ensures PhonePass(b.entries, Lower(coincidence)) == PhonePass(b.entries, coincidence)
    ensures NamePass(b.entries, Lower(coincidence)) == NamePass(b.entries, coincidence)
  {
    LowerIdempotent(coincidence);
    FilterSameCondition(b.entries, (r: Record) => PhoneHit(r, Lower(coincidence)), (r: Record) => PhoneHit(r, coincidence));
    FilterSameCondition(b.entries, (r: Record) => NameHit(r, Lower(coincidence)), (r: Record) => NameHit(r, coincidence));
  }

  /** An empty query reports every record with a phone, then every record. */
  lemma EmptyQueryReportsAll(b: AddressBook)
    ensures NamePass(b.entries, "") == b.entries
    ensures forall r :: r in PhonePass(b.entries, "") <==> r in b.entries && |r.phones| > 0
  {
    forall r | r in b.entries
      ensures NameHit(r, "")
    {
      ContainsEmpty(Lower(r.name));
    }
    FilterAll(b.entries, (r: Record) => NameHit(r, ""));
    forall r | r in b.entries && |r.phones| > 0
      ensures PhoneHit(r, "")
    {
      ContainsEmpty(Lower(r.phones[0]));
    }
  }
}
