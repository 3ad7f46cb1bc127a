/**
 * The address book: records keyed by name, in the order their names were
 * first inserted, as a Python dict keeps them. Overwriting a name keeps its
 * position; deleting it drops the position.
 */
module Book {
  import opened Wrappers
  import opened Contacts

  datatype Book = Book(records: seq<Record>)

  /** No name occurs twice; the key of each entry is its record's name. */
  predicate UniqueNames(rs: seq<Record>) {
    forall i, j :: 0 <= i < j < |rs| ==> rs[i].name != rs[j].name
  }

  type AddressBook = b: Book | UniqueNames(b.records) witness Book([])

  /** The keys of the book, in iteration order. */
  function Names(rs: seq<Record>): (ns: seq<string>)
    ensures |ns| == |rs|
    ensures forall k :: 0 <= k < |rs| ==> ns[k] == rs[k].name
  {
    seq(|rs|, k requires 0 <= k < |rs| => rs[k].name)
  }

  /** Position of the entry keyed `name`, or `|rs|` when there is none. */
  function IndexOfName(rs: seq<Record>, name: string): (i: nat)
    ensures i <= |rs|
    ensures i < |rs| ==> rs[i].name == name
    ensures forall k :: 0 <= k < i ==> rs[k].name != name
  {
    if |rs| == 0 then 0
    else if rs[0].name == name then 0
    else 1 + IndexOfName(rs[1..], name)
  }

  /** `find`: the record stored under `name`, or `None` when the name is not a key. */
  function Find(b: AddressBook, name: string): (r: Option<Record>)
    ensures r.None? <==> name !in Names(b.records)
    ensures r.Some? ==> r.value in b.records && r.value.name == name
  {
    var i := IndexOfName(b.records, name);
    if i < |b.records| then Some(b.records[i]) else None
  }

  /** The entry at `i` is the one `Find` returns for its name. */
  lemma FindAt(b: AddressBook, i: int)
    requires 0 <= i < |b.records|
    ensures Find(b, b.records[i].name) == Some(b.records[i])
  {
  }

  /**
   * `add_record`: stores `rec` under its name, replacing any previous
   * record of that name in its position (no merge), or appending it.
   */
  function AddRecord(b: AddressBook, rec: Record): (r: AddressBook)
    ensures Find(r, rec.name) == Some(rec)
    ensures forall n :: n != rec.name ==> Find(r, n) == Find(b, n)
    ensures rec.name in Names(b.records) ==> Names(r.records) == Names(b.records)
    ensures rec.name !in Names(b.records) ==> Names(r.records) == Names(b.records) + [rec.name]
  {
    var rs := b.records;
    var i := IndexOfName(rs, rec.name);
    if i < |rs| then
      var rs' := rs[i := rec];
      assert Names(rs') == Names(rs);
      Book(rs')
    else
      var rs' := rs + [rec];
      assert Names(rs') == Names(rs) + [rec.name];
      Book(rs')
  }

  /** Removing the entry at `i` leaves the lookup of any other name `n` unchanged. */
  lemma RemoveAtKeepsName(b: AddressBook, i: int, rest: AddressBook, n: string)
    requires 0 <= i < |b.records|
    requires rest.records == b.records[..i] + b.records[i + 1..]
    requires n != b.records[i].name
    ensures Find(rest, n) == Find(b, n)
  {
    var rs, rs' := b.records, rest.records;
    var j := IndexOfName(rs, n);
    if j < |rs| {
      var j' := if j < i then j else j - 1;
      assert rs'[j'] == rs[j];
      FindAt(b, j);
      FindAt(rest, j');
    } else {
      assert forall k :: 0 <= k < |rs'| ==> rs'[k] == (if k < i then rs[k] else rs[k + 1]);
      assert n !in Names(rs');
    }
  }

  /** Removing the entry at `i` drops its name and keeps every other key's lookup unchanged. */
  lemma RemoveAtKeepsOthers(b: AddressBook, i: int, rest: AddressBook)
    requires 0 <= i < |b.records|
    requires rest.records == b.records[..i] + b.records[i + 1..]
    ensures b.records[i].name !in Names(rest.records)
    ensures forall n :: n != b.records[i].name ==> Find(rest, n) == Find(b, n)
  {
    var rs, rs' := b.records, rest.records;
    assert forall k :: 0 <= k < |rs'| ==> rs'[k] == (if k < i then rs[k] else rs[k + 1]);
    forall n | n != rs[i].name
      ensures Find(rest, n) == Find(b, n)
    {
      RemoveAtKeepsName(b, i, rest, n);
    }
  }

  /** `delete`: drops the entry keyed `name` and keeps the others in order; a no-op for an absent name. */
  function Delete(b: AddressBook, name: string): (r: AddressBook)
    ensures Find(r, name) == None
    ensures forall n :: n != name ==> Find(r, n) == Find(b, n)
    ensures name !in Names(b.records) ==> r == b
    ensures forall i :: 0 <= i < |b.records| && b.records[i].name == name ==>
              r.records == b.records[..i] + b.records[i + 1..]
  {
    var rs := b.records;
    var i := IndexOfName(rs, name);
    if i < |rs| then
      var rs' := rs[..i] + rs[i + 1..];
      assert forall k :: 0 <= k < |rs'| ==> rs'[k] == (if k < i then rs[k] else rs[k + 1]);
      RemoveAtKeepsOthers(b, i, Book(rs'));
      Book(rs')
    else b
  }

  /** Last write wins: adding two records of the same name leaves only the second, where the first went. */
  lemma AddRecordLastWins(b: AddressBook, first: Record, second: Record)
    requires first.name == second.name
    ensures AddRecord(AddRecord(b, first), second) == AddRecord(b, second)
  {
    var rs := b.records;
    var i := IndexOfName(rs, first.name);
    if i == |rs| {
      var ext := rs + [first];
      assert ext[|rs|].name == first.name;
      assert forall k :: 0 <= k < |rs| ==> ext[k] == rs[k];
      assert IndexOfName(ext, first.name) == |rs|;
    }
  }

  /** Deleting a name just added to a book that lacked it restores the book. */
  lemma AddThenDelete(b: AddressBook, rec: Record)
    requires rec.name !in Names(b.records)
    ensures Delete(AddRecord(b, rec), rec.name) == b
  {
    var rs := b.records;
    assert AddRecord(b, rec).records[|rs|].name == rec.name;
    assert (rs + [rec])[..|rs|] == rs;
  }
}
