/**
 * The address book: a Python dict from contact name to record. A dict keeps
 * its keys in insertion order and overwriting a key keeps its position, so
 * the book is modelled as the sequence of its values in key order; the key
 * of every entry is its record's name, because `add_record` is the only way
 * entries are created.
 */
module AddressBooks {
  import opened Wrappers
  import opened Seqs
  import opened Records

  /** What the store raises: `KeyError` from `del`, `ValueError` from `search`. */
  datatype Error = KeyError(key: string) | ValueError(message: string)

  const NotFoundMessage: string := "Contact with this value does not exist."

  datatype AddressBook = AddressBook(entries: seq<Record>)

  /** The dict's keys, in order. */
  function Keys(b: AddressBook): (ks: seq<string>)
    ensures |ks| == |b.entries|
    ensures forall i :: 0 <= i < |ks| ==> ks[i] == b.entries[i].name
  {
    seq(|b.entries|, i requires 0 <= i < |b.entries| => b.entries[i].name)
  }

  /** Dict keys are unique: no two entries share a name. */
  predicate Valid(b: AddressBook)
  {
    forall i, j :: 0 <= i < j < |b.entries| ==> b.entries[i].name != b.entries[j].name
  }

  /** `get_record`: `self.data.get(name)`, `None` when the name is not a key. */
  function GetRecord(b: AddressBook, name: string): (r: Option<Record>)
    ensures r.Some? <==> name in Keys(b)
    ensures r.Some? ==> r.value in b.entries && r.value.name == name
  {
    var i := FirstIndex(Keys(b), name);
    if i < |b.entries| then Some(b.entries[i]) else None
  }

  /**
   * `has_record`: `bool(self.data.get(name))`. A record defines neither
   * `__bool__` nor `__len__`, so it is always truthy and this is key membership.
   */
  function HasRecord(b: AddressBook, name: string): (found: bool)
    ensures found <==> exists i :: 0 <= i < |b.entries| && b.entries[i].name == name
  {
    GetRecord(b, name).Some?
  }

  /** The dict view of the book. */
  function ToMap(b: AddressBook): (m: map<string, Record>)
    ensures forall k :: k in m <==> k in Keys(b)
    ensures forall k :: k in m ==> GetRecord(b, k) == Some(m[k])
  {
    map k | k in Keys(b) :: GetRecord(b, k).value
  }

  /** In a valid book each entry is what its own name looks up. */
  lemma GetRecordOfEntry(b: AddressBook, i: nat)
    requires Valid(b) && i < |b.entries|
    ensures GetRecord(b, b.entries[i].name) == Some(b.entries[i])
  {
    assert Keys(b)[i] == b.entries[i].name;
  }

  /**
   * `add_record`: `self.data[record.name] = record`. An existing entry with
   * that name is overwritten in place; otherwise the record is appended.
   */
  function AddRecord(b: AddressBook, r: Record): (b': AddressBook)
    ensures GetRecord(b', r.name) == Some(r)
    ensures forall k :: k != r.name ==> GetRecord(b', k) == GetRecord(b, k)
    ensures Keys(b') == if r.name in Keys(b) then Keys(b) else Keys(b) + [r.name]
    ensures forall j :: 0 <= j < |b.entries| && b.entries[j].name != r.name ==> b'.entries[j] == b.entries[j]
    ensures Valid(b) ==> Valid(b')
  {
    var i := FirstIndex(Keys(b), r.name);
    if i < |b.entries| then
      OverwriteKeepsOthers(b, i, r);
      AddressBook(b.entries[i := r])
    else
      AppendKeepsOthers(b, r);
      AddressBook(b.entries + [r])
  }

  /** Overwriting the entry of an existing name leaves the keys and every other lookup alone. */
  lemma OverwriteKeepsOthers(b: AddressBook, i: nat, r: Record)
    requires i < |b.entries| && i == FirstIndex(Keys(b), r.name)
    ensures Keys(AddressBook(b.entries[i := r])) == Keys(b)
    ensures GetRecord(AddressBook(b.entries[i := r]), r.name) == Some(r)
    ensures forall k :: k != r.name ==> GetRecord(AddressBook(b.entries[i := r]), k) == GetRecord(b, k)
    ensures Valid(b) ==> Valid(AddressBook(b.entries[i := r]))
  {
    var b' := AddressBook(b.entries[i := r]);
    assert Keys(b') == Keys(b);
    forall k | k != r.name
      ensures GetRecord(b', k) == GetRecord(b, k)
    {
      var j := FirstIndex(Keys(b), k);
      assert j != i;
    }
  }

  /** Appending a record under a new name leaves every other lookup alone. */
  lemma AppendKeepsOthers(b: AddressBook, r: Record)
    requires r.name !in Keys(b)
    ensures Keys(AddressBook(b.entries + [r])) == Keys(b) + [r.name]
    ensures GetRecord(AddressBook(b.entries + [r]), r.name) == Some(r)
    ensures forall k :: k != r.name ==> GetRecord(AddressBook(b.entries + [r]), k) == GetRecord(b, k)
    ensures Valid(b) ==> Valid(AddressBook(b.entries + [r]))
  {
    var b' := AddressBook(b.entries + [r]);
    assert Keys(b') == Keys(b) + [r.name];
    forall k | k != r.name
      ensures GetRecord(b', k) == GetRecord(b, k)
    {
      var j := FirstIndex(Keys(b), k);
      if j < |b.entries| {
        assert Keys(b')[j] == k;
        assert FirstIndex(Keys(b'), k) == j;
      } else {
        assert k !in Keys(b');
      }
    }
  }

  /** `remove_record`: `del self.data[name]`, a `KeyError` when the name is not a key. */
  function RemoveRecord(b: AddressBook, name: string): (res: Result<AddressBook, Error>)
    ensures res.Failure? <==> name !in Keys(b)
    ensures res.Failure? ==> res.error == KeyError(name)
    ensures res.Success? ==>
              exists i :: 0 <= i < |b.entries| && b.entries[i].name == name
                          && name !in Keys(b)[..i] && res.value.entries == RemoveAt(b.entries, i)
  {
    var i := FirstIndex(Keys(b), name);
    if i < |b.entries| then
      assert name !in Keys(b)[..i];
      Success(AddressBook(RemoveAt(b.entries, i)))
    else
      Failure(KeyError(name))
  }

  /**
   * Position of the first record, in key order, holding a phone exactly equal
   * to `value`, or `|rs|` when there is none.
   */
  function FirstWithPhone(rs: seq<Record>, value: string): (i: nat)
    ensures i <= |rs|
    ensures i < |rs| ==> value in rs[i].phones
    ensures forall j :: 0 <= j < i ==> value !in rs[j].phones
  {
    if |rs| == 0 then 0
    else if value in rs[0].phones then 0
    else 1 + FirstWithPhone(rs[1..], value)
  }

  /**
   * `search`: the record named `value` if there is one; otherwise the first
   * record in key order with a phone equal to `value`; otherwise `ValueError`.
   */
  function Search(b: AddressBook, value: string): (res: Result<Record, Error>)
    ensures value in Keys(b) ==> res.Success? && res.value.name == value && res.value in b.entries
    ensures value in Keys(b) ==> res == Success(GetRecord(b, value).value)
    ensures value !in Keys(b) && (exists i :: 0 <= i < |b.entries| && value in b.entries[i].phones) ==>
              res.Success? &&
              exists i :: 0 <= i < |b.entries| && b.entries[i] == res.value && value in res.value.phones
                          && forall j :: 0 <= j < i ==> value !in b.entries[j].phones
    ensures res.Failure? <==> value !in Keys(b) && forall i :: 0 <= i < |b.entries| ==> value !in b.entries[i].phones
    ensures res.Failure? ==> res.error == ValueError(NotFoundMessage)
  {
    if HasRecord(b, value) then Success(GetRecord(b, value).value)
    else
      var i := FirstWithPhone(b.entries, value);
      if i < |b.entries| then Success(b.entries[i])
      else Failure(ValueError(NotFoundMessage))
  }

  function Min(a: int, b: int): (m: int)
    ensures m <= a && m <= b && (m == a || m == b)
  {
    if a <= b then a else b
  }

  /** Number of batches of `n` needed to cover `a` items: `a / n` rounded up. */
  function CeilDiv(a: int, n: nat): (k: nat)
    requires n >= 1
    decreases a
  {
    if a <= 0 then 0 else 1 + CeilDiv(a - n, n)
  }

  /** `CeilDiv` is the least count of `n`-blocks reaching `a`. */
  lemma {:induction false} CeilDivBounds(a: nat, n: nat)
    requires n >= 1
    ensures CeilDiv(a, n) * n >= a
    ensures CeilDiv(a, n) == 0 || (CeilDiv(a, n) - 1) * n < a
    decreases a
  {
    if a > n {
      CeilDivBounds(a - n, n);
      assert CeilDiv(a, n) * n == CeilDiv(a - n, n) * n + n;
    }
  }

  /**
   * `iterator(N)`: the batches of `N` records that the generator yields over
   * the keys as they stand when the first batch is requested. The source loops forever when `N` is
   * not positive, so `N >= 1` is required.
   */
  method Iterator(b: AddressBook, n: nat) returns (batches: seq<seq<Record>>)
    requires n >= 1
    ensures Flatten(batches) == b.entries
    ensures |batches| == CeilDiv(|b.entries|, n)
    ensures |b.entries| == 0 <==> |batches| == 0
    ensures forall i :: 0 <= i < |batches| ==> 1 <= |batches[i]| <= n
    ensures forall i :: 0 <= i < |batches| - 1 ==> |batches[i]| == n
  {
    var total := |b.entries|;
    var index := 0;
    batches := [];
    while index < total
      invariant 0 <= index
      invariant |batches| + CeilDiv(total - index, n) == CeilDiv(total, n)
      invariant Flatten(batches) == b.entries[..Min(index, total)]
      invariant forall i :: 0 <= i < |batches| ==> 1 <= |batches[i]| <= n
      invariant forall i :: 0 <= i < |batches| - 1 ==> |batches[i]| == n
      invariant index <= total ==> forall i :: 0 <= i < |batches| ==> |batches[i]| == n
    {
      var batch := b.entries[index .. Min(index + n, total)];
      assert b.entries[..Min(index + n, total)] == b.entries[..index] + batch;
      assert (batches + [batch])[..|batches|] == batches;
      batches := batches + [batch];
      index := index + n;
    }
    assert b.entries[..total] == b.entries;
  }

  /** Adding a record under a fresh name and removing that name gives the book back. */
  lemma {:induction false} AddThenRemove(b: AddressBook, r: Record)
    requires r.name !in Keys(b)
    ensures RemoveRecord(AddRecord(b, r), r.name) == Success(b)
  {
    assert AddRecord(b, r) == AddressBook(b.entries + [r]);
    RemoveAppended(b, r);
  }

  /** Removing the name of a record just appended under a new name drops exactly that record. */
  lemma RemoveAppended(b: AddressBook, r: Record)
    requires r.name !in Keys(b)
    ensures RemoveRecord(AddressBook(b.entries + [r]), r.name) == Success(b)
  {
    var n := |b.entries|;
    var b' := AddressBook(b.entries + [r]);
    assert FirstIndex(Keys(b'), r.name) == n by {
      assert forall j :: 0 <= j < n ==> Keys(b')[j] == Keys(b)[j] != r.name;
      assert Keys(b')[n] == r.name;
    }
    assert RemoveAt(b'.entries, n) == b.entries by {
      assert (b.entries + [r])[..n] == b.entries;
    }
  }

  /** `add_record` on the ordered book is a dict assignment on its dict view. */
  lemma AddRecordRefinesMap(b: AddressBook, r: Record)
    ensures ToMap(AddRecord(b, r)) == ToMap(b)[r.name := r]
  {
    var m' := ToMap(AddRecord(b, r));
    forall k | k in m' && k != r.name
      ensures k in ToMap(b) && m'[k] == ToMap(b)[k]
    {
    }
    MapUpdateExtensionality(m', ToMap(b), r.name, r);
  }

  /** A map that agrees with `m` except that `x` maps to `v` is `m[x := v]`. */
  lemma MapUpdateExtensionality<K, V>(m': map<K, V>, m: map<K, V>, x: K, v: V)
    requires x in m' && m'[x] == v
    requires forall k :: k in m' && k != x ==> k in m && m'[k] == m[k]
    requires forall k :: k in m && k != x ==> k in m'
    ensures m' == m[x := v]
  {
  }

  /** Dropping one entry of a book with unique names leaves the names unique. */
  lemma RemoveAtKeepsValid(b: AddressBook, i: nat, b': AddressBook)
    requires Valid(b) && i < |b.entries| && b'.entries == RemoveAt(b.entries, i)
    ensures Valid(b')
  {
    forall x, y | 0 <= x < y < |b'.entries|
      ensures b'.entries[x].name != b'.entries[y].name
    {
      var x0 := if x < i then x else x + 1;
      var y0 := if y < i then y else y + 1;
      assert b'.entries[x] == b.entries[x0] && b'.entries[y] == b.entries[y0];
    }
  }

  /** After dropping entry `i` of a valid book, every remaining name looks up the same record as before. */
  lemma LookupAfterRemoveAt(b: AddressBook, i: nat, b': AddressBook, j: nat)
    requires Valid(b) && i < |b.entries| && b'.entries == RemoveAt(b.entries, i)
    requires j < |b'.entries|
    ensures b'.entries[j].name != b.entries[i].name
    ensures GetRecord(b', b'.entries[j].name) == GetRecord(b, b'.entries[j].name) == Some(b'.entries[j])
  {
    var j0 := if j < i then j else j + 1;
    assert b'.entries[j] == b.entries[j0];
    RemoveAtKeepsValid(b, i, b');
    GetRecordOfEntry(b', j);
    GetRecordOfEntry(b, j0);
  }

  /** Removing from a book with unique names keeps the names unique and drops the removed name entirely. */
  lemma RemoveRecordKeepsValid(b: AddressBook, name: string)
    requires Valid(b) && name in Keys(b)
    ensures RemoveRecord(b, name).Success?
    ensures Valid(RemoveRecord(b, name).value)
    ensures name !in Keys(RemoveRecord(b, name).value)
  {
    var i := FirstIndex(Keys(b), name);
    var b' := AddressBook(RemoveAt(b.entries, i));
    assert RemoveRecord(b, name) == Success(b');
    forall j | 0 <= j < |b'.entries|
      ensures b'.entries[j].name != name
    {
      LookupAfterRemoveAt(b, i, b', j);
    }
    RemoveAtKeepsValid(b, i, b');
  }

  /** Dropping entry `i` keeps every other name a key. */
  lemma KeyAfterRemoveAt(b: AddressBook, i: nat, b': AddressBook, k: string)
    requires i < |b.entries| && b'.entries == RemoveAt(b.entries, i)
    requires k in Keys(b) && k != b.entries[i].name
    ensures k in Keys(b')
  {
    var j := FirstIndex(Keys(b), k);
    if j < i {
      assert Keys(b')[j] == k;
    } else {
      assert Keys(b')[j - 1] == k;
    }
  }

  /** Dropping entry `i` of a valid book removes exactly its name from the dict view. */
  lemma ToMapAfterRemoveAt(b: AddressBook, i: nat, b': AddressBook)
    requires Valid(b) && i < |b.entries| && b'.entries == RemoveAt(b.entries, i)
    ensures ToMap(b') == ToMap(b) - {b.entries[i].name}
  {
    var name := b.entries[i].name;
    forall k | k in ToMap(b')
      ensures k in ToMap(b) && k != name && ToMap(b')[k] == ToMap(b)[k]
    {
      LookupAfterRemoveAt(b, i, b', FirstIndex(Keys(b'), k));
    }
    forall k | k in ToMap(b) && k != name
      ensures k in ToMap(b')
    {
      KeyAfterRemoveAt(b, i, b', k);
    }
    MapExtensionality(ToMap(b'), ToMap(b), name);
  }

  /** Two maps agreeing on every key but `x`, which only the second has, differ by removing `x`. */
  lemma MapExtensionality<K, V>(m': map<K, V>, m: map<K, V>, x: K)
    requires forall k :: k in m' ==> k in m && k != x && m'[k] == m[k]
    requires forall k :: k in m && k != x ==> k in m'
    ensures m' == m - {x}
  {
  }

  /** `remove_record` on a valid ordered book is key removal on its dict view. */
  lemma RemoveRecordRefinesMap(b: AddressBook, name: string)
    requires Valid(b) && name in Keys(b)
    ensures RemoveRecord(b, name).Success?
    ensures ToMap(RemoveRecord(b, name).value) == ToMap(b) - {name}
  {
    var i := FirstIndex(Keys(b), name);
    var b' := AddressBook(RemoveAt(b.entries, i));
    assert RemoveRecord(b, name) == Success(b');
    ToMapAfterRemoveAt(b, i, b');
  }
}
