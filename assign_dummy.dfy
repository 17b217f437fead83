/** The dummy assignment page: the same sequencer as AssignPage, wired to an
    in-memory backend that refuses the code "0000" and always agrees to a
    removal, and fed a fixed roster of five students without codes. */
module AssignDummy {
  import opened Wrappers
  import opened Text
  import opened Backend
  import opened AssignPage
  import opened AssignProps

  /** The mock `apiService.assignRfid`. */
  function MockAssign(studentId: string, code: string): (reply: Reply)
    ensures Succeeded(reply) <==> code != "0000"
    ensures !Succeeded(reply) ==> FailureMessage(reply, "Failed to assign RFID") == "RFID cannot be 0000"
  {
    if code == "0000" then Answered(false, "RFID cannot be 0000") else Answered(true, "")
  }

  /** The mock `apiService.removeRfid`. */
  function MockRemove(studentId: string): (reply: Reply)
    ensures Succeeded(reply)
  {
    Answered(true, "RFID removed successfully")
  }

  /** The mock `apiService.getStudents`: five students, none with a code. */
  function MockStudents(): (data: seq<Fetched>)
    ensures |data| == 5
    ensures forall i :: 0 <= i < |data| ==> data[i].rfid == ""
    ensures forall i, j :: 0 <= i < j < |data| ==> data[i].id != data[j].id
  {
    [ Fetched("stu1", "Alice Johnson", ""), Fetched("stu2", "Bob Smith", ""),
      Fetched("stu3", "Charlie Brown", ""), Fetched("stu4", "Diana Prince", ""),
      Fetched("stu5", "Ethan Hunt", "") ]
  }

  /** The id `assignRfid` sends: the student at the cursor. */
  function CursorId(r: Roster): string {
    if r.cursor < |r.students| then r.students[r.cursor].id else ""
  }

  /** `handleScan` of the dummy page. */
  function DummyScan(r: Roster, key: string): (st: Step)
    ensures st.roster != r ==> key == "Enter" && r.input != "0000" && r.input in st.roster.codes
  {
    Scan(r, key, MockAssign(CursorId(r), r.input))
  }

  /** `handleRemoveRfid` of the dummy page. */
  function DummyRemove(r: Roster, id: string, code: string): (st: Step)
    ensures id != "" ==> st.roster.codes == r.codes - {code}
  {
    Remove(r, id, code, MockRemove(id))
  }

  /** Scanning "0000" never changes the state; once it reaches the backend
      the page shows the mock's "RFID cannot be 0000". */
  lemma Scan0000NeverChanges(r: Roster)
    requires r.input == "0000"
    ensures DummyScan(r, "Enter").roster == r
    ensures "0000" !in r.codes && r.cursor < |r.students| ==>
      DummyScan(r, "Enter").notice == Some(Notice(Error, "RFID cannot be 0000"))
  {
    var reply := MockAssign(CursorId(r), r.input);
    assert !Succeeded(reply);
    assert Trim(r.input) != "" by {
      assert !IsWhite(r.input[0]);
      TrimEmptyIffAllWhite(r.input);
    }
    assert DummyScan(r, "Enter") == Assign(r, reply);
  }

  /** Every other non-blank code that passes the guards is stored as typed. */
  lemma DummyScanStores(r: Roster)
    requires !AllWhite(r.input) && r.input != "0000"
    requires r.input !in r.codes && r.cursor < |r.students|
    ensures var after := DummyScan(r, "Enter").roster;
      && after.students[r.cursor].rfid == r.input && after.students[r.cursor].isAssigned
      && after.codes == r.codes + {r.input}
      && (after.cursor == |r.students| || !after.students[after.cursor].isAssigned)
  {
    TrimEmptyIffAllWhite(r.input);
    AssignSuccess(r, MockAssign(CursorId(r), r.input));
  }

  /** On Enter a white-space-only input is refused and nothing else happens. */
  lemma DummyScanBlank(r: Roster)
    requires AllWhite(r.input)
    ensures DummyScan(r, "Enter") == Step(r, Some(Notice(Error, "Please scan RFID first")))
  {
    ScanBlankRefused(r, MockAssign(CursorId(r), r.input));
  }

  /** The mock removal always goes through: for a non-empty id the student is
      cleared, the given code leaves the set even if the student held another
      one, and the cursor lands on the student. */
  lemma DummyRemoveAlwaysApplies(r: Roster, k: nat, code: string)
    requires k < |r.students| && r.students[k].id != ""
    requires forall j :: 0 <= j < k ==> r.students[j].id != r.students[k].id
    ensures var after := DummyRemove(r, r.students[k].id, code).roster;
      && after.cursor == k
      && after.students[k].rfid == "" && !after.students[k].isAssigned
      && after.codes == r.codes - {code}
      && code !in after.codes
  {
    RemoveSuccess(r, r.students[k].id, code, MockRemove(r.students[k].id));
  }

  /** Scanning a fresh code onto the student at the cursor and then removing
      it from that student restores the roster, the set and the cursor. */
  lemma DummyAssignThenRemove(r: Roster)
    requires Consistent(r) && UniqueIds(r.students)
    requires !AllWhite(r.input) && r.input != "0000"
    requires r.input !in r.codes && r.cursor < |r.students|
    requires r.students[r.cursor].id != ""
    ensures var mid := DummyScan(r, "Enter").roster;
      var back := DummyRemove(mid, r.students[r.cursor].id, r.input).roster;
      && back.students == r.students && back.codes == r.codes && back.cursor == r.cursor
  {
    TrimEmptyIffAllWhite(r.input);
    var reply := MockAssign(CursorId(r), r.input);
    AssignThenRemove(r, reply, MockRemove(r.students[r.cursor].id));
  }

  /** The five mock students load with the cursor on the first of them, no
      code in use, and the page invariant in place. */
  lemma MockRosterLoads(input: string)
    ensures var r := Loaded(MockStudents(), input);
      && |r.students| == 5 && r.cursor == 0 && r.codes == {}
      && CountAssigned(r.students) == 0 && Progress(r.students) == 0
      && Consistent(r)
  {
    var data := MockStudents();
    var r := Loaded(data, input);
    assert data[0].rfid == "";
    LoadedConsistentIff(data, input);
    assert r.codes == {} by {
      LoadedCodes(data, input);
    }
    assert forall i :: 0 <= i < 5 ==> !r.students[i].isAssigned;
    assert CountAssigned(r.students) == 0 by {
      NoneAssigned(r.students);
    }
  }

  lemma {:induction false} NoneAssigned(s: seq<Student>)
    requires forall i :: 0 <= i < |s| ==> !s[i].isAssigned
    ensures CountAssigned(s) == 0
  {
    if s != [] {
      NoneAssigned(s[1..]);
    }
  }
}
