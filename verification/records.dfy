/** The contact record and the operations on its ordered phone list. */
module Records {
  import opened Wrappers
  import opened Seqs

  /**
   * One contact. Phones are kept as the raw strings the `Phone` setter stored,
   * valid or not, in insertion order and with duplicates allowed. The birthday
   * is stored verbatim as well.
   */
  datatype Record = Record(name: string, phones: seq<string>, birthday: Option<string>)

  /** Outcome of `delete_phone`: whether a phone was removed, and the record afterwards. */
  datatype Deletion = Deletion(removed: bool, record: Record)

  /** `Record(name, birthday)`: a contact with no phones yet. */
  function NewRecord(name: string, birthday: Option<string>): (r: Record)
    ensures r.name == name && r.birthday == birthday
    ensures |r.phones| == 0
  {
    Record(name, [], birthday)
  }

  /** `add_phone`: the value is stored at the end whatever the validator says. */
  function AddPhone(r: Record, phone: string): (r': Record)
    ensures r'.name == r.name && r'.birthday == r.birthday
    ensures |r'.phones| == |r.phones| + 1
    ensures r'.phones[..|r.phones|] == r.phones
    ensures r'.phones[|r.phones|] == phone
    ensures multiset(r'.phones) == multiset(r.phones) + multiset{phone}
  {
    r.(phones := r.phones + [phone])
  }

  /** `delete_phone`: removes the first phone equal to the value, if any. */
  function DeletePhone(r: Record, phone: string): (d: Deletion)
    ensures d.removed <==> phone in r.phones
    ensures d.record.name == r.name && d.record.birthday == r.birthday
    ensures !d.removed ==> d.record == r
    ensures d.removed ==>
              exists i :: 0 <= i < |r.phones| && r.phones[i] == phone && phone !in r.phones[..i]
                          && d.record.phones == RemoveAt(r.phones, i)
    ensures multiset(d.record.phones) == multiset(r.phones) - multiset{phone}
  {
    var i := FirstIndex(r.phones, phone);
    if i < |r.phones| then
      assert phone !in r.phones[..i];
      RemoveAtMultiset(r.phones, i);
      Deletion(true, r.(phones := RemoveAt(r.phones, i)))
    else
      Deletion(false, r)
  }

  /** One step of `change_phones`: delete the value if present, otherwise add it. */
  function Toggle(r: Record, phone: string): (r': Record)
    ensures r'.name == r.name && r'.birthday == r.birthday
    ensures phone !in r.phones ==> r'.phones == r.phones + [phone]
    ensures phone in r.phones ==>
              exists i :: 0 <= i < |r.phones| && r.phones[i] == phone && phone !in r.phones[..i]
                          && r'.phones == RemoveAt(r.phones, i)
  {
    var d := DeletePhone(r, phone);
    if d.removed then d.record else AddPhone(r, phone)
  }

  /** Toggling changes the count of the toggled value by one and leaves every other count alone. */
  lemma ToggleCounts(r: Record, phone: string)
    ensures multiset(Toggle(r, phone).phones)[phone] ==
            if phone in r.phones then multiset(r.phones)[phone] - 1 else 1
    ensures forall x :: x != phone ==> multiset(Toggle(r, phone).phones)[x] == multiset(r.phones)[x]
  {
    var d := DeletePhone(r, phone);
    if !d.removed {
      assert multiset(r.phones)[phone] == 0;
    }
  }

  /** `change_phones`: toggles each value in turn, from first to last. */
  function ChangePhones(r: Record, values: seq<string>): (r': Record)
    ensures r'.name == r.name && r'.birthday == r.birthday
    ensures forall x :: x !in values ==> multiset(r'.phones)[x] == multiset(r.phones)[x]
    decreases |values|
  {
    if |values| == 0 then r
    else
      ToggleCounts(r, values[0]);
      ChangePhones(Toggle(r, values[0]), values[1..])
  }

  /** Adding a phone the record does not hold and then deleting it gives the record back. */
  lemma {:induction false} DeleteAfterAdd(r: Record, phone: string)
    requires phone !in r.phones
    ensures DeletePhone(AddPhone(r, phone), phone) == Deletion(true, r)
  {
    var s := AddPhone(r, phone).phones;
    assert FirstIndex(s, phone) == |r.phones| by {
      assert forall j :: 0 <= j < |r.phones| ==> s[j] == r.phones[j];
    }
    assert RemoveAt(s, |r.phones|) == r.phones;
  }

  /** Toggling a phone the record does not hold twice restores the record. */
  lemma {:induction false} ToggleAbsentTwice(r: Record, phone: string)
    requires phone !in r.phones
    ensures Toggle(Toggle(r, phone), phone) == r
  {
    DeleteAfterAdd(r, phone);
  }

  /** `change_phones([p])` removes the first `p` when present and appends `p` otherwise. */
  lemma ChangeSinglePhone(r: Record, phone: string)
    ensures ChangePhones(r, [phone]) == Toggle(r, phone)
    ensures phone !in r.phones ==> ChangePhones(r, [phone]).phones == r.phones + [phone]
    ensures phone in r.phones ==>
              exists i :: 0 <= i < |r.phones| && r.phones[i] == phone && phone !in r.phones[..i]
                          && ChangePhones(r, [phone]).phones == RemoveAt(r.phones, i)
  {
    assert [phone][1..] == [];
  }

  /** Changing with `a + b` is changing with `a`, then with `b`. */
  lemma {:induction false} ChangePhonesConcat(r: Record, a: seq<string>, b: seq<string>)
    ensures ChangePhones(r, a + b) == ChangePhones(ChangePhones(r, a), b)
    decreases |a|
  {
    if |a| == 0 {
      assert a + b == b;
    } else {
      assert (a + b)[0] == a[0];
      assert (a + b)[1..] == a[1..] + b;
      ChangePhonesConcat(Toggle(r, a[0]), a[1..], b);
    }
  }
}
