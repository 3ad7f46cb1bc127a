/**
 * One contact: a name, an ordered list of phones and an optional
 * birthday, with the operations that change them.
 */
module Contacts {
  import opened Wrappers
  import opened Fields
  import opened DateFormat

  /** The name is free text and is never validated. */
  datatype Record = Record(name: string, phones: seq<Phone>, birthday: Option<Birthday>)

  /**
   * The state of a record after an operation that may raise, and the
   * error it raised; a raising operation leaves the record as it was.
   */
  datatype Update = Update(record: Record, error: Option<FieldError>)

  /** A new contact has a name only. */
  function NewRecord(name: string): (r: Record)
    ensures r.name == name && |r.phones| == 0 && r.birthday.None?
    ensures PhonesValid(r)
  {
    Record(name, [], None)
  }

  /** `i` is the position of the first phone whose text is `v`. */
  predicate FirstAt(ps: seq<Phone>, v: string, i: int) {
    0 <= i < |ps| && ps[i].value == v && forall k :: 0 <= k < i ==> ps[k].value != v
  }

  /** No phone has the text `v`. */
  predicate Absent(ps: seq<Phone>, v: string) {
    forall k :: 0 <= k < |ps| ==> ps[k].value != v
  }

  /** Either no phone has the text `v` or some position holds its first occurrence. */
  lemma {:induction false} FirstOrAbsent(ps: seq<Phone>, v: string)
    ensures Absent(ps, v) || exists i :: FirstAt(ps, v, i)
  {
    if |ps| > 0 && ps[0].value != v {
      FirstOrAbsent(ps[1..], v);
      if i :| FirstAt(ps[1..], v, i) {
        assert FirstAt(ps, v, i + 1);
      }
    } else if |ps| > 0 {
      assert FirstAt(ps, v, 0);
    }
  }

  /** Every phone of the record holds text a new phone would accept. */
  predicate PhonesValid(r: Record) {
    forall k :: 0 <= k < |r.phones| ==> ValidPhoneText(r.phones[k].value)
  }

  /** `add_phone`: a valid phone goes to the end of the list; an invalid one raises and changes nothing. */
  function AddPhone(r: Record, raw: string): (u: Update)
    ensures u.error.None? <==> ValidPhoneText(raw)
    ensures u.error.None? ==> u.record == r.(phones := r.phones + [Phone(raw)])
    ensures u.error.Some? ==> u.error == Some(InvalidPhone) && u.record == r
  {
    match NewPhone(raw)
    case Success(p) => Update(r.(phones := r.phones + [p]), None)
    case Failure(e) => Update(r, Some(e))
  }

  /** The list without its first phone whose text is `v`; the others keep their order. */
  function RemoveFirst(ps: seq<Phone>, v: string): (r: seq<Phone>)
    ensures Absent(ps, v) ==> r == ps
    ensures forall i :: FirstAt(ps, v, i) ==> r == ps[..i] + ps[i + 1..]
  {
    if |ps| == 0 then []
    else if ps[0].value == v then ps[1..]
    else
      var tail := RemoveFirst(ps[1..], v);
      assert forall i :: FirstAt(ps, v, i) ==> FirstAt(ps[1..], v, i - 1);
      [ps[0]] + tail
  }

  /** `remove_phone`: removes the first matching phone only, and is a no-op without a match. */
  function RemovePhone(r: Record, raw: string): (r': Record)
    ensures r'.name == r.name && r'.birthday == r.birthday
    ensures Absent(r.phones, raw) ==> r' == r
    ensures forall i :: FirstAt(r.phones, raw, i) ==> r'.phones == r.phones[..i] + r.phones[i + 1..]
  {
    r.(phones := RemoveFirst(r.phones, raw))
  }

  /** The list with the text of its first phone equal to `old` replaced by `new`. */
  function EditFirst(ps: seq<Phone>, oldText: string, newText: string): (r: seq<Phone>)
    ensures |r| == |ps|
    ensures Absent(ps, oldText) ==> r == ps
    ensures forall i :: FirstAt(ps, oldText, i) ==> r == ps[i := Phone(newText)]
  {
    if |ps| == 0 then []
    else if ps[0].value == oldText then [Phone(newText)] + ps[1..]
    else
      var tail := EditFirst(ps[1..], oldText, newText);
      assert forall i :: FirstAt(ps, oldText, i) ==> FirstAt(ps[1..], oldText, i - 1);
      [ps[0]] + tail
  }

  /**
   * `edit_phone`: overwrites the text of the first phone equal to `old`
   * with `new`, which is NOT validated; a no-op when `old` is absent.
   */
  function EditPhone(r: Record, oldText: string, newText: string): (r': Record)
    ensures r'.name == r.name && r'.birthday == r.birthday && |r'.phones| == |r.phones|
    ensures Absent(r.phones, oldText) ==> r' == r
    ensures forall i :: FirstAt(r.phones, oldText, i) ==> r'.phones == r.phones[i := Phone(newText)]
  {
    r.(phones := EditFirst(r.phones, oldText, newText))
  }

  /** `add_birthday`: a valid text replaces any previous birthday; an invalid one raises and changes nothing. */
  function AddBirthday(r: Record, raw: string): (u: Update)
    ensures u.error.None? <==> Parse(raw).Some?
    ensures u.error.None? ==> u.record == r.(birthday := Some(BirthdayText(raw)))
    ensures u.error.Some? ==> u.error == Some(InvalidBirthday) && u.record == r
  {
    match NewBirthday(raw)
    case Success(b) => Update(r.(birthday := Some(b)), None)
    case Failure(e) => Update(r, Some(e))
  }

  // ---------------------------------------------------------------------------
  // Properties relating the operations
  // ---------------------------------------------------------------------------

  /** Adding a phone keeps every phone valid: an invalid text is refused. */
  lemma AddPhoneKeepsValid(r: Record, raw: string)
    requires PhonesValid(r)
    ensures PhonesValid(AddPhone(r, raw).record)
  {
  }

  /** Removing a phone keeps every remaining phone valid. */
  lemma RemovePhoneKeepsValid(r: Record, raw: string)
    requires PhonesValid(r)
    ensures PhonesValid(RemovePhone(r, raw))
  {
    var ps := r.phones;
    FirstOrAbsent(ps, raw);
    if i :| FirstAt(ps, raw, i) {
      var removed := RemovePhone(r, raw).phones;
      assert forall k :: 0 <= k < |removed| ==> removed[k] == (if k < i then ps[k] else ps[k + 1]);
    }
  }

  /** Editing keeps every phone valid only when the replacement text is itself valid. */
  lemma EditPhoneKeepsValid(r: Record, oldText: string, newText: string)
    requires PhonesValid(r) && ValidPhoneText(newText)
    ensures PhonesValid(EditPhone(r, oldText, newText))
  {
    FirstOrAbsent(r.phones, oldText);
  }

  /** Editing does not validate: replacing a present phone with invalid text leaves an invalid phone. */
  lemma EditPhoneSkipsValidation(r: Record, oldText: string, newText: string)
    requires !Absent(r.phones, oldText) && !ValidPhoneText(newText)
    ensures !PhonesValid(EditPhone(r, oldText, newText))
  {
    FirstOrAbsent(r.phones, oldText);
    var i :| FirstAt(r.phones, oldText, i);
    assert EditPhone(r, oldText, newText).phones[i] == Phone(newText);
  }

  /** Removing a phone just added, whose text was not on the list before, restores the record. */
  lemma AddThenRemovePhone(r: Record, raw: string)
    requires Absent(r.phones, raw)
    ensures RemovePhone(AddPhone(r, raw).record, raw) == r
  {
    var u := AddPhone(r, raw);
    if u.error.None? {
      assert FirstAt(u.record.phones, raw, |r.phones|);
      assert u.record.phones[..|r.phones|] == r.phones;
    }
  }

  /** Editing `old` to `new` and back restores the record when no phone had the text `new`. */
  lemma EditPhoneUndo(r: Record, oldText: string, newText: string)
    requires Absent(r.phones, newText)
    ensures EditPhone(EditPhone(r, oldText, newText), newText, oldText) == r
  {
    var ps := r.phones;
    FirstOrAbsent(ps, oldText);
    if i :| FirstAt(ps, oldText, i) {
      var edited := ps[i := Phone(newText)];
      assert FirstAt(edited, newText, i);
      assert edited[i := Phone(oldText)] == ps;
    }
  }

  /** A second birthday overwrites the first: only the last valid text is kept. */
  lemma LastBirthdayWins(r: Record, first: string, second: string)
    requires Parse(second).Some?
    ensures AddBirthday(AddBirthday(r, first).record, second).record == AddBirthday(r, second).record
  {
  }
}
