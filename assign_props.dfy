/** What the assignment page's handlers promise, stated over the step
    functions of AssignPage: load, the guarded assign, remove, their round
    trip, the invariant they keep, and the stats and progress figures. */
module AssignProps {
  import opened Wrappers
  import opened Text
  import opened Backend
  import opened AssignPage

  /** No code appears on two fetched rows. */
  ghost predicate DistinctCodes(data: seq<Fetched>) {
    forall i, j :: 0 <= i < j < |data| && data[i].rfid != "" ==> data[i].rfid != data[j].rfid
  }

  // ----- load -----

  /** After load a student is flagged assigned exactly when it has a code,
      and the rest of the row is the fetched row. */
  lemma LoadedFlags(data: seq<Fetched>, input: string)
    ensures var s := Loaded(data, input).students;
      && |s| == |data|
      && forall i :: 0 <= i < |data| ==>
           && s[i].id == data[i].id && s[i].name == data[i].name && s[i].rfid == data[i].rfid
           && (s[i].isAssigned <==> data[i].rfid != "")
  {
  }

  /** After load the cursor is the first row without a code; when there is
      none (every row has a code, or the roster is empty) it is 0. */
  lemma LoadedCursor(data: seq<Fetched>, input: string)
    ensures var c := Loaded(data, input).cursor;
      && ((exists i :: 0 <= i < |data| && data[i].rfid == "") ==>
            c < |data| && data[c].rfid == "" && forall j :: 0 <= j < c ==> data[j].rfid != "")
      && ((forall i :: 0 <= i < |data| ==> data[i].rfid != "") ==> c == 0)
  {
  }

  /** After load the set of used codes holds exactly the non-empty codes of
      the roster, which are the codes the loaded students hold. */
  lemma LoadedCodes(data: seq<Fetched>, input: string)
    ensures forall c :: c in Loaded(data, input).codes <==>
      c != "" && exists i :: 0 <= i < |data| && data[i].rfid == c
    ensures Loaded(data, input).codes == HeldCodes(Loaded(data, input).students)
  {
    var r := Loaded(data, input);
    forall c | c in HeldCodes(r.students) ensures c in r.codes {
      var i :| 0 <= i < |r.students| && r.students[i].rfid != "" && r.students[i].rfid == c;
      assert data[i].rfid == c;
    }
    forall c | c in r.codes ensures c in HeldCodes(r.students) {
      var i :| 0 <= i < |data| && data[i].rfid != "" && data[i].rfid == c;
      assert r.students[i].rfid == c;
    }
  }

  /** A freshly loaded roster keeps the page invariant exactly when no code is
      on two rows and the roster is empty or has a row without a code: with
      every row coded, the cursor is left on row 0, an assigned student. */
  lemma LoadedConsistentIff(data: seq<Fetched>, input: string)
    ensures Consistent(Loaded(data, input)) <==>
      DistinctCodes(data) && (|data| == 0 || exists i :: 0 <= i < |data| && data[i].rfid == "")
  {
    var r := Loaded(data, input);
    LoadedCodes(data, input);
    if DistinctCodes(data) && (|data| == 0 || exists i :: 0 <= i < |data| && data[i].rfid == "") {
      assert Consistent(r);
    }
    if Consistent(r) {
      forall i, j | 0 <= i < j < |data| && data[i].rfid != "" ensures data[i].rfid != data[j].rfid {
        assert r.students[i].rfid == data[i].rfid && r.students[j].rfid == data[j].rfid;
      }
    }
  }

  /** The load fallback as written: with every row coded the cursor stays on
      row 0, so the next successful assign overwrites that student's code
      while the old code stays in the set with nobody holding it. */
  lemma LoadAllAssignedThenAssignOverwrites(data: seq<Fetched>, code: string, reply: Reply)
    requires |data| > 0 && forall i :: 0 <= i < |data| ==> data[i].rfid != ""
    requires DistinctCodes(data)
    requires code != "" && code !in UsedCodes(data)
    requires Succeeded(reply)
    ensures var r := Loaded(data, code);
      var after := Assign(r, reply).roster;
      && r.cursor == 0
      && after.students[0].rfid == code
      && data[0].rfid in after.codes
      && data[0].rfid !in HeldCodes(after.students)
      && !Consistent(after)
  {
    var r := Loaded(data, code);
    var after := Assign(r, reply).roster;
    forall i | 0 <= i < |after.students| && after.students[i].rfid != ""
      ensures after.students[i].rfid != data[0].rfid
    {
      if i != 0 {
        assert after.students[i] == r.students[i];
      }
    }
  }

  // ----- assign -----

  /** The guards of assign, in order: an empty code is ignored silently; a
      code in use is refused as such even when the roster is exhausted; an
      exhausted cursor is refused next; then a failed backend call is
      reported. None of them changes the state. */
  lemma AssignRejections(r: Roster, reply: Reply)
    ensures r.input == "" ==> Assign(r, reply) == Step(r, None)
    ensures r.input != "" && r.input in r.codes ==>
      Assign(r, reply) == Step(r, Some(Notice(Error, "RFID " + r.input + " is already assigned")))
    ensures r.input != "" && r.input !in r.codes && r.cursor >= |r.students| ==>
      Assign(r, reply) == Step(r, Some(Notice(Error, "All students are already assigned")))
    ensures r.input != "" && r.input !in r.codes && r.cursor < |r.students| && !Succeeded(reply) ==>
      Assign(r, reply) == Step(r, Some(Notice(Error, FailureMessage(reply, "Failed to assign RFID"))))
  {
  }

  /** Assign changes the state exactly when every guard passes and the
      backend succeeds, and it then reports success. */
  lemma AssignChangesOnlyOnSuccess(r: Roster, reply: Reply)
    ensures Assign(r, reply).roster != r <==>
      r.input != "" && r.input !in r.codes && r.cursor < |r.students| && Succeeded(reply)
    ensures Assign(r, reply).roster != r ==> Assign(r, reply).notice.Some? && Assign(r, reply).notice.value.kind == Success
    ensures Assign(r, reply).roster == r ==> Assign(r, reply).notice.None? || Assign(r, reply).notice.value.kind == Error
  {
  }

  /** A successful assign writes the code onto the student at the cursor and
      no other, adds exactly that code to the set, clears the input, and moves
      the cursor to the first unassigned student after the old cursor, or to
      the roster length. */
  lemma AssignSuccess(r: Roster, reply: Reply)
    requires r.input != "" && r.input !in r.codes && r.cursor < |r.students| && Succeeded(reply)
    ensures var after := Assign(r, reply).roster;
      var i := r.cursor;
      && |after.students| == |r.students|
      && after.students[i] == r.students[i].(rfid := r.input, isAssigned := true)
      && (forall j :: 0 <= j < |r.students| && j != i ==> after.students[j] == r.students[j])
      && after.codes == r.codes + {r.input} && |after.codes| == |r.codes| + 1
      && after.input == ""
      && i < after.cursor <= |r.students|
      && (forall j :: i < j < after.cursor ==> r.students[j].isAssigned)
      && (after.cursor < |r.students| ==> !r.students[after.cursor].isAssigned)
  {
    var after := Assign(r, reply).roster;
    assert after.codes - {r.input} == r.codes;
  }

  /** A successful assign on a consistent roster marks exactly one more
      student assigned. */
  lemma AssignCountsOneMore(r: Roster, reply: Reply)
    requires Consistent(r)
    requires r.input != "" && r.input !in r.codes && r.cursor < |r.students| && Succeeded(reply)
    ensures CountAssigned(Assign(r, reply).roster.students) == CountAssigned(r.students) + 1
  {
    var s := r.students;
    CountAssignedUpdate(s, r.cursor, s[r.cursor].(rfid := r.input, isAssigned := true));
  }

  /** Replacing one student changes the assigned count by the difference of
      the two flags. */
  lemma {:induction false} CountAssignedUpdate(s: seq<Student>, i: nat, x: Student)
    requires i < |s|
    ensures CountAssigned(s[i := x]) + (if s[i].isAssigned then 1 else 0)
         == CountAssigned(s) + (if x.isAssigned then 1 else 0)
  {
    if i > 0 {
      assert s[i := x][1..] == s[1..][i - 1 := x];
      CountAssignedUpdate(s[1..], i - 1, x);
    }
  }

  /** Assign keeps the page invariant. */
  lemma AssignPreservesConsistent(r: Roster, reply: Reply)
    requires Consistent(r)
    ensures Consistent(Assign(r, reply).roster)
  {
    if r.input != "" && r.input !in r.codes && r.cursor < |r.students| && Succeeded(reply) {
      AssignSuccess(r, reply);
      AssignKeepsHeldCodes(r, reply);
      AssignKeepsDistinct(r, reply);
    }
  }

  /** After a successful assign the used set is still the set of held codes. */
  lemma AssignKeepsHeldCodes(r: Roster, reply: Reply)
    requires Consistent(r)
    requires r.input != "" && r.input !in r.codes && r.cursor < |r.students| && Succeeded(reply)
    ensures Assign(r, reply).roster.codes == HeldCodes(Assign(r, reply).roster.students)
  {
    var after := Assign(r, reply).roster;
    var i := r.cursor;
    AssignSuccess(r, reply);
    forall c | c in after.codes ensures c in HeldCodes(after.students) {
      if c == r.input {
        assert after.students[i].rfid == c;
      } else {
        var j :| 0 <= j < |r.students| && r.students[j].rfid != "" && r.students[j].rfid == c;
        assert after.students[j] == r.students[j];
      }
    }
    forall c | c in HeldCodes(after.students) ensures c in after.codes {
      var j :| 0 <= j < |after.students| && after.students[j].rfid != "" && after.students[j].rfid == c;
      if j != i {
        assert r.students[j].rfid == c;
      }
    }
  }

  /** After a successful assign no code is held twice. */
  lemma AssignKeepsDistinct(r: Roster, reply: Reply)
    requires Consistent(r)
    requires r.input != "" && r.input !in r.codes && r.cursor < |r.students| && Succeeded(reply)
    ensures var s := Assign(r, reply).roster.students;
      forall j, k :: 0 <= j < k < |s| && s[j].rfid != "" ==> s[j].rfid != s[k].rfid
  {
    var after := Assign(r, reply).roster;
    var i := r.cursor;
    AssignSuccess(r, reply);
    assert r.students[i].rfid == "";
    forall j, k | 0 <= j < k < |after.students| && after.students[j].rfid != ""
      ensures after.students[j].rfid != after.students[k].rfid
    {
      if j == i {
        assert r.students[k].rfid == "" || r.students[k].rfid in r.codes;
      } else if k == i {
        assert r.students[j].rfid in r.codes;
      }
    }
  }

  // ----- scan -----

  /** On Enter, a white-space-only input is refused with "Please scan RFID
      first" and assignment is not attempted. */
  lemma ScanBlankRefused(r: Roster, reply: Reply)
    requires AllWhite(r.input)
    ensures Scan(r, "Enter", reply) == Step(r, Some(Notice(Error, "Please scan RFID first")))
  {
    TrimEmptyIffAllWhite(r.input);
  }

  /** The blank check trims but assign does not: an input with surrounding
      white space is stored as typed, and slips past the duplicate check even
      when its trimmed form is already in use. */
  lemma ScanStoresUntrimmed(r: Roster, reply: Reply)
    requires !AllWhite(r.input)
    requires r.input !in r.codes && r.cursor < |r.students| && Succeeded(reply)
    ensures var after := Scan(r, "Enter", reply).roster;
      && after.students[r.cursor].rfid == r.input
      && r.input in after.codes
  {
    TrimEmptyIffAllWhite(r.input);
    assert r.input != "";
  }

  /** The duplicate check compares the untrimmed input, so a code typed with
      surrounding white space passes it even when another student already
      holds the trimmed code: afterwards two students hold different strings
      that trim to the same card. */
  lemma ScanUntrimmedDuplicate(r: Roster, reply: Reply, j: nat)
    requires Consistent(r)
    requires !AllWhite(r.input) && r.input !in r.codes && r.cursor < |r.students| && Succeeded(reply)
    requires j < |r.students| && j != r.cursor && r.students[j].rfid == Trim(r.input)
    ensures var after := Scan(r, "Enter", reply).roster;
      && after.students[j].rfid == Trim(r.input)
      && after.students[r.cursor].rfid == r.input
      && Trim(after.students[r.cursor].rfid) == Trim(after.students[j].rfid)
      && after.students[r.cursor].rfid != after.students[j].rfid
  {
    TrimEmptyIffAllWhite(r.input);
    AssignSuccess(r, reply);
    TrimIdempotent(r.input);
    assert Trim(r.input) in HeldCodes(r.students);
  }

  // ----- remove -----

  /** A successful remove clears every student carrying the id and leaves
      the others alone, deletes the given code from the set whatever code the
      student held, keeps the input, and puts the cursor on the student (or
      leaves it when the id is not on the roster). */
  lemma RemoveSuccess(r: Roster, id: string, code: string, reply: Reply)
    requires id != "" && Succeeded(reply)
    ensures var after := Remove(r, id, code, reply).roster;
      && |after.students| == |r.students|
      && (forall i :: 0 <= i < |r.students| && r.students[i].id == id ==>
            && after.students[i].rfid == "" && !after.students[i].isAssigned
            && after.students[i].id == id && after.students[i].name == r.students[i].name)
      && (forall i :: 0 <= i < |r.students| && r.students[i].id != id ==> after.students[i] == r.students[i])
      && after.codes == r.codes - {code}
      && after.input == r.input
      && ((exists i :: 0 <= i < |r.students| && r.students[i].id == id) ==>
            && after.cursor < |r.students| && r.students[after.cursor].id == id
            && forall j :: 0 <= j < after.cursor ==> r.students[j].id != id)
      && ((forall i :: 0 <= i < |r.students| ==> r.students[i].id != id) ==>
            after.students == r.students && after.cursor == r.cursor)
  {
    var after := Remove(r, id, code, reply).roster;
    if forall i :: 0 <= i < |r.students| ==> r.students[i].id != id {
      assert after.students == r.students;
    }
  }

  /** A backend failure (an answer with success false, or a throw) in assign
      or remove leaves the state unchanged and reports one error: the
      backend's message, or the default text when it gave none. */
  lemma BackendFailureChangesNothing(r: Roster, id: string, code: string, reply: Reply)
    requires !Succeeded(reply)
    ensures Assign(r, reply).roster == r
    ensures r.input != "" && r.input !in r.codes && r.cursor < |r.students| ==>
      Assign(r, reply).notice == Some(Notice(Error, FailureMessage(reply, "Failed to assign RFID")))
    ensures Remove(r, id, code, reply).roster == r
    ensures id != "" ==>
      Remove(r, id, code, reply).notice == Some(Notice(Error, FailureMessage(reply, "Failed to remove RFID")))
  {
  }

  /** Remove, called as the roster table calls it (on a student that holds
      a code, passing that code), keeps the page invariant when ids are
      unique. */
  lemma RemovePreservesConsistent(r: Roster, k: nat, reply: Reply)
    requires Consistent(r) && UniqueIds(r.students)
    requires k < |r.students| && r.students[k].rfid != ""
    ensures Consistent(Remove(r, r.students[k].id, r.students[k].rfid, reply).roster)
  {
    var id, code := r.students[k].id, r.students[k].rfid;
    if id != "" && Succeeded(reply) {
      var after := Remove(r, id, code, reply).roster;
      RemoveSuccess(r, id, code, reply);
      assert after.cursor == k;
      forall c | c in after.codes ensures c in HeldCodes(after.students) {
        var j :| 0 <= j < |r.students| && r.students[j].rfid != "" && r.students[j].rfid == c;
        assert j != k;
        assert after.students[j] == r.students[j];
      }
      forall c | c in HeldCodes(after.students) ensures c in after.codes {
        var j :| 0 <= j < |after.students| && after.students[j].rfid != "" && after.students[j].rfid == c;
        assert j != k && after.students[j] == r.students[j];
      }
    }
  }

  /** Assign then remove on the same student and code restores the roster,
      the set and the cursor; only the input stays cleared. */
  lemma AssignThenRemove(r: Roster, assignReply: Reply, removeReply: Reply)
    requires Consistent(r) && UniqueIds(r.students)
    requires r.input != "" && r.input !in r.codes && r.cursor < |r.students|
    requires r.students[r.cursor].id != ""
    requires Succeeded(assignReply) && Succeeded(removeReply)
    ensures var i := r.cursor;
      var mid := Assign(r, assignReply).roster;
      var back := Remove(mid, r.students[i].id, r.input, removeReply).roster;
      && mid.students[i].rfid == r.input
      && back.students == r.students
      && back.codes == r.codes
      && back.cursor == r.cursor
      && back.input == ""
  {
    var i := r.cursor;
    var mid := Assign(r, assignReply).roster;
    AssignSuccess(r, assignReply);
    assert mid.students[i].id == r.students[i].id;
    RemoveSuccess(mid, r.students[i].id, r.input, removeReply);
    var back := Remove(mid, r.students[i].id, r.input, removeReply).roster;
    assert r.students[i].rfid == "" && !r.students[i].isAssigned;
    forall j | 0 <= j < |r.students| ensures back.students[j] == r.students[j] {
      if j != i {
        assert mid.students[j].id != r.students[i].id;
      }
    }
    assert back.students == r.students;
    assert r.input !in r.codes;
  }

  // ----- stats and progress -----

  /** At most every student is assigned, and when all are the count is the
      roster length. */
  lemma {:induction false} CountAssignedBounds(s: seq<Student>)
    ensures CountAssigned(s) <= |s|
    ensures (forall i :: 0 <= i < |s| ==> s[i].isAssigned) ==> CountAssigned(s) == |s|
  {
    if s != [] {
      CountAssignedBounds(s[1..]);
    }
  }

  /** The percentage lies in [0, 100] whenever the count is within the total. */
  lemma PercentBounds(count: nat, total: nat)
    requires count <= total
    ensures 0 <= Percent(count, total) <= 100
    ensures total > 0 && count == total ==> Percent(count, total) == 100
  {
    if total > 0 {
      var p := Percent(count, total);
      if p < 0 {
        MulMonotone(-p, 1, total);
      }
      if p > 100 {
        MulMonotone(p, 101, total);
      }
      if count == total && p < 100 {
        MulMonotone(100 - p, 1, total);
      }
    }
  }

  lemma MulMonotone(a: int, b: int, t: nat)
    requires a >= b
    ensures a * t >= b * t
  {
  }

  /** The progress bar reads 0 for an empty roster, stays within [0, 100],
      and reads 100 once every student is assigned. */
  lemma ProgressBounds(s: seq<Student>)
    ensures |s| == 0 ==> Progress(s) == 0
    ensures 0 <= Progress(s) <= 100
    ensures |s| > 0 && (forall i :: 0 <= i < |s| ==> s[i].isAssigned) ==> Progress(s) == 100
  {
    CountAssignedBounds(s);
    PercentBounds(CountAssigned(s), |s|);
  }
}
