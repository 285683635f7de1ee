/**
 * The roster store: the in-memory list of students, the add/edit mode of the
 * form, and the copy of the list kept in the browser's local storage under the
 * key "students".
 */
module Roster {
  import opened Wrappers
  import opened Validation

  /** The list with element `i` cut out and the rest shifted down (`splice(i, 1)`). */
  function Removed(s: seq<Student>, i: nat): (r: seq<Student>)
    requires i < |s|
    ensures |r| == |s| - 1
    ensures forall j :: 0 <= j < i ==> r[j] == s[j]
    ensures forall j :: i <= j < |r| ==> r[j] == s[j + 1]
  {
    s[..i] + s[i + 1..]
  }

  /** Every record in the list is one the validator would accept as it stands. */
  predicate AllValid(s: seq<Student>) {
    forall k :: 0 <= k < |s| ==> IsValidRecord(s[k])
  }

  /** Appending or overwriting with a valid record keeps every row valid. */
  lemma AllValidUpdate(s: seq<Student>, d: Student, i: nat)
    requires AllValid(s) && IsValidRecord(d)
    ensures AllValid(s + [d])
    ensures i < |s| ==> AllValid(s[i := d])
  {
  }

  /**
   * Where the record being edited sits once element `i` is deleted: gone if it
   * was that element, one place lower if it stood after it, unmoved otherwise.
   */
  function EditTargetAfterDelete(e: Option<nat>, i: nat): (r: Option<nat>)
    ensures e.None? ==> r.None?
    ensures forall s: seq<Student>, k: nat {:trigger Removed(s, i), s[k]} ::
      e == Some(k) && i < |s| && k < |s| ==>
        && (r.None? <==> k == i)
        && (r.Some? ==> r.value < |s| - 1 && Removed(s, i)[r.value] == s[k])
  {
    match e
    case None => None
    case Some(k) => if k == i then None else if k < i then Some(k) else Some(k - 1)
  }

  /**
   * After a delete, the adjusted edit index designates the very record that was
   * opened for editing, or add mode if that record was the one deleted.
   */
  lemma EditTargetFollowsRecord(s: seq<Student>, i: nat, k: nat)
    requires i < |s| && k < |s|
    ensures var r := EditTargetAfterDelete(Some(k), i);
      && (k == i <==> r.None?)
      && (r.Some? ==> r.value < |Removed(s, i)| && Removed(s, i)[r.value] == s[k])
  {
  }

  class RosterStore {
    /** The in-memory list `students`, in insertion order. */
    var students: seq<Student>
    /** The hidden `editIndex` field: `None` is add mode (the empty string). */
    var editIndex: Option<nat>
    /** The list last written to local storage. */
    var stored: seq<Student>

    /** In edit mode the index designates a row of the list. */
    ghost predicate Valid()
      reads this
    {
      editIndex.Some? ==> editIndex.value < |students|
    }

    /** Local storage holds exactly the in-memory list. */
    ghost predicate Synced()
      reads this
    {
      stored == students
    }

    /**
     * Page load: the list is read from storage (empty when nothing is stored),
     * the form starts in add mode, and the first render writes the list back.
     */
    constructor (saved: Option<seq<Student>>)
      ensures Valid() && Synced()
      ensures students == (if saved.Some? then saved.value else [])
      ensures editIndex.None?
    {
      students := if saved.Some? then saved.value else [];
      editIndex := None;
      stored := [];
      new;
      Persist();
    }

    /** The storage write that ends every render. */
    method Persist()
      modifies this`stored
      ensures Synced()
    {
      stored := students;
    }

    /**
     * A page reload: a fresh store built from what storage holds. The list that
     * was last persisted comes back unchanged, in add mode.
     */
    method Reload()
      modifies this
      ensures Valid() && Synced()
      ensures students == old(stored) && editIndex.None?
      ensures old(Synced()) ==> students == old(students)
    {
      students := stored;
      editIndex := None;
      Persist();
    }

    /**
     * The form's submit handler. A rejected submission reports the first failing
     * check and changes nothing. An accepted one appends the trimmed record in add
     * mode, or replaces the edited row and returns to add mode, then persists.
     */
    method Submit(name: string, sid: string, email: string, contact: string)
      returns (err: Option<ValidationError>)
      requires Valid()
      modifies this
      ensures Valid()
      ensures var v := Validate(name, sid, email, contact);
        err == (if v.Err? then Some(v.error) else None)
      ensures err.Some? ==>
        students == old(students) && editIndex == old(editIndex) && stored == old(stored)
      ensures err.None? ==> Synced() && editIndex.None?
      ensures err.None? && old(editIndex).None? ==>
        students == old(students) + [Validate(name, sid, email, contact).value]
      ensures err.None? && old(editIndex).Some? ==>
        students == old(students)[old(editIndex).value := Validate(name, sid, email, contact).value]
      ensures old(AllValid(students)) ==> AllValid(students)
    {
      var v := Validate(name, sid, email, contact);
      if v.Err? {
        return Some(v.error);
      }
      var data := v.value;
      assert IsValidRecord(data);
      ghost var before := students;
      if AllValid(before) {
        AllValidUpdate(before, data, if editIndex.Some? then editIndex.value else 0);
      }
      match editIndex {
        case None =>
          students := students + [data];
        case Some(i) =>
          students := students[i := data];
          editIndex := None;
      }
      Persist();
      err := None;
    }

    /**
     * `editStudent`: gives the row to load into the form and switches to edit
     * mode on it; the list and storage are untouched.
     */
    method Edit(i: nat) returns (s: Student)
      requires i < |students|
      modifies this`editIndex
      ensures Valid()
      ensures s == students[i] && editIndex == Some(i)
    {
      s := students[i];
      editIndex := Some(i);
    }

    /**
     * `deleteStudent` as written: the row is cut out and storage rewritten, but
     * the edit index is left as it was, and may no longer designate the row
     * opened for editing, or any row.
     */
    method DeleteAsWritten(i: nat)
      requires i < |students|
      modifies this
      ensures students == Removed(old(students), i)
      ensures Synced() && editIndex == old(editIndex)
      ensures old(AllValid(students)) ==> AllValid(students)
    {
      students := students[..i] + students[i + 1..];
      Persist();
    }

    /**
     * `deleteStudent` with the edit index kept on the record being edited: the
     * row is cut out, later rows shift down, and storage is rewritten.
     */
    method Delete(i: nat)
      requires Valid() && i < |students|
      modifies this
      ensures Valid() && Synced()
      ensures students == Removed(old(students), i)
      ensures editIndex == EditTargetAfterDelete(old(editIndex), i)
      ensures old(AllValid(students)) ==> AllValid(students)
    {
      students := students[..i] + students[i + 1..];
      editIndex := EditTargetAfterDelete(editIndex, i);
      Persist();
    }
  }

  /**
   * As written, deleting a row leaves the edit index untouched. With rows
   * [a, b, c] and row 1 (b) opened for editing, deleting row 0 leaves index 1 on
   * c, so the next accepted submission overwrites c while b survives.
   */
  method StaleEditIndexOverwrites(a: Student, b: Student, c: Student,
                                  name: string, sid: string, email: string, contact: string)
    returns (after: seq<Student>)
    requires Validate(name, sid, email, contact).Ok?
    ensures after == [b, Validate(name, sid, email, contact).value]
  {
    var st := new RosterStore(Some([a, b, c]));
    var loaded := st.Edit(1);
    assert loaded == b;
    st.DeleteAsWritten(0);
    assert st.editIndex == Some(1) && st.students == [b, c];
    var err := st.Submit(name, sid, email, contact);
    assert err.None?;
    after := st.students;
  }

  /**
   * As written, with row 2 of three opened for editing, two deletes of row 0
   * leave an edit index past the end of the one remaining row.
   */
  method StaleEditIndexPastEnd(a: Student, b: Student, c: Student) returns (inRange: bool)
    ensures !inRange
  {
    var st := new RosterStore(Some([a, b, c]));
    var _ := st.Edit(2);
    st.DeleteAsWritten(0);
    st.DeleteAsWritten(0);
    inRange := st.editIndex.Some? ==> st.editIndex.value < |st.students|;
  }
}
