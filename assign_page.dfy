/** The RFID assignment sequencer of the assignment page: a roster of
    students, a cursor on the next student to receive a card, and the set of
    card codes already handed out. Each handler is one atomic step from the
    state before it to the state after its backend call has completed. */
module AssignPage {
  import opened Wrappers
  import opened Text
  import opened Backend

  /** A roster row as the backend returns it; a missing or null rfid is "". */
  datatype Fetched = Fetched(id: string, name: string, rfid: string)

  /** A roster row held by the page: the fetched row plus the derived flag. */
  datatype Student = Student(id: string, name: string, rfid: string, isAssigned: bool)

  datatype Kind = Success | Error

  /** The transient alert the page shows. */
  datatype Notice = Notice(kind: Kind, message: string)

  /** The state the handlers replace: the roster, the cursor (currentIndex),
      the codes in use (assignedRfids) and the text in the scan input. */
  datatype Roster = Roster(students: seq<Student>, cursor: nat, codes: set<string>, input: string)

  /** One handler's effect: the new state and the alert it raises, if any. */
  datatype Step = Step(roster: Roster, notice: Option<Notice>)

  // ----- load -----

  /** `{ ...s, assigned: !!s.rfid }` */
  function Flag(row: Fetched): Student {
    Student(row.id, row.name, row.rfid, row.rfid != "")
  }

  /** `data.map(s => ({ ...s, assigned: !!s.rfid }))` */
  function Flagged(data: seq<Fetched>): (students: seq<Student>)
    ensures |students| == |data|
    ensures forall i :: 0 <= i < |data| ==>
      && students[i].id == data[i].id && students[i].name == data[i].name
      && students[i].rfid == data[i].rfid
      && (students[i].isAssigned <==> data[i].rfid != "")
  {
    seq(|data|, i requires 0 <= i < |data| => Flag(data[i]))
  }

  /** `data.findIndex(s => !s.rfid)`: the first row without a code, or -1. */
  function FirstUnassigned(data: seq<Fetched>): (k: int)
    ensures -1 <= k < |data|
    ensures k >= 0 ==> data[k].rfid == ""
    ensures forall j :: 0 <= j < |data| && (k < 0 || j < k) ==> data[j].rfid != ""
  {
    if data == [] then -1
    else if data[0].rfid == "" then 0
    else
      var k := FirstUnassigned(data[1..]);
      if k < 0 then -1 else k + 1
  }

  /** `new Set(data.filter(d => d.rfid).map(d => d.rfid))` */
  function UsedCodes(data: seq<Fetched>): (codes: set<string>)
    ensures forall c :: c in codes <==> c != "" && exists i :: 0 <= i < |data| && data[i].rfid == c
  {
    set i | 0 <= i < |data| && data[i].rfid != "" :: data[i].rfid
  }

  /** The state once the roster for a class/section/session has arrived. The
      cursor falls back to 0, not to the roster length, when every row already
      has a code. The scan input is left as it was. */
  function Loaded(data: seq<Fetched>, input: string): (r: Roster)
    ensures |r.students| == |data| && r.input == input
    ensures r.cursor < |data| || r.cursor == 0
  {
    var k := FirstUnassigned(data);
    Roster(Flagged(data), if k >= 0 then k else 0, UsedCodes(data), input)
  }

  // ----- assign -----

  /** The while loop's result: the first index at or after `from` whose student
      is not assigned, or the roster length. */
  function NextUnassigned(students: seq<Student>, from: nat): (k: nat)
    requires from <= |students|
    ensures from <= k <= |students|
    ensures forall j :: from <= j < k ==> students[j].isAssigned
    ensures k < |students| ==> !students[k].isAssigned
    decreases |students| - from
  {
    if from == |students| || !students[from].isAssigned then from
    else NextUnassigned(students, from + 1)
  }

  /** `let next = from; while (next < length && updated[next].isAssigned) next++;` */
  method Advance(students: seq<Student>, from: nat) returns (next: nat)
    requires from <= |students|
    ensures next == NextUnassigned(students, from)
  {
    next := from;
    while next < |students| && students[next].isAssigned
      invariant from <= next <= |students|
      invariant NextUnassigned(students, next) == NextUnassigned(students, from)
    {
      next := next + 1;
    }
  }

  function Min(a: int, b: int): int {
    if a <= b then a else b
  }

  /** `assignRfid`: the guards in source order (empty code, code in use,
      cursor past the end), then the backend's verdict. The code used is the
      input exactly as typed, without trimming. */
  function Assign(r: Roster, reply: Reply): (st: Step)
    ensures |st.roster.students| == |r.students| && r.codes <= st.roster.codes
    ensures st.roster != r ==> Succeeded(reply) && st.roster.codes == r.codes + {r.input}
  {
    var code := r.input;
    if code == "" then Step(r, None)
    else if code in r.codes then
      Step(r, Some(Notice(Error, "RFID " + code + " is already assigned")))
    else if r.cursor >= |r.students| then
      Step(r, Some(Notice(Error, "All students are already assigned")))
    else if !Succeeded(reply) then
      Step(r, Some(Notice(Error, FailureMessage(reply, "Failed to assign RFID"))))
    else
      var current := r.students[r.cursor];
      var updated := r.students[r.cursor := current.(rfid := code, isAssigned := true)];
      var next := NextUnassigned(updated, r.cursor + 1);
      Step(Roster(updated, Min(next, |updated|), r.codes + {code}, ""),
           Some(Notice(Success, "RFID " + code + " assigned to " + current.name)))
  }

  /** `handleScan`: only Enter acts; a blank input (after trimming) is
      refused before `assignRfid` is reached. */
  function Scan(r: Roster, key: string, reply: Reply): (st: Step)
    ensures key != "Enter" ==> st == Step(r, None)
    ensures st.roster != r ==> key == "Enter" && !AllWhite(r.input) && Succeeded(reply)
  {
    TrimEmptyIffAllWhite(r.input);
    if key != "Enter" then Step(r, None)
    else if Trim(r.input) == "" then Step(r, Some(Notice(Error, "Please scan RFID first")))
    else Assign(r, reply)
  }

  // ----- remove -----

  /** `students.map(s => s.id === id ? { ...s, rfid: "", assigned: false } : s)` */
  function Cleared(students: seq<Student>, id: string): (cleared: seq<Student>)
    ensures |cleared| == |students|
    ensures forall i :: 0 <= i < |students| ==>
      if students[i].id == id then cleared[i].id == id && cleared[i].rfid == "" && !cleared[i].isAssigned
      else cleared[i] == students[i]
  {
    seq(|students|, i requires 0 <= i < |students| =>
      if students[i].id == id then students[i].(rfid := "", isAssigned := false) else students[i])
  }

  /** `students.findIndex(s => s.id === id)` */
  function IndexOfId(students: seq<Student>, id: string): (k: int)
    ensures -1 <= k < |students|
    ensures k >= 0 ==> students[k].id == id
    ensures forall j :: 0 <= j < |students| && (k < 0 || j < k) ==> students[j].id != id
  {
    if students == [] then -1
    else if students[0].id == id then 0
    else
      var k := IndexOfId(students[1..], id);
      if k < 0 then -1 else k + 1
  }

  /** `handleRemoveRfid(id, code)`: a falsy id does nothing; on success every
      student with that id is cleared, `code` leaves the set whether or not it
      was that student's code, and the cursor moves to the student. */
  function Remove(r: Roster, id: string, code: string, reply: Reply): (st: Step)
    ensures |st.roster.students| == |r.students| && st.roster.codes <= r.codes && st.roster.input == r.input
    ensures id != "" && Succeeded(reply) ==> st.roster.codes == r.codes - {code} && code !in st.roster.codes
    ensures st.roster != r ==> id != "" && Succeeded(reply)
  {
    if id == "" then Step(r, None)
    else if !Succeeded(reply) then
      Step(r, Some(Notice(Error, FailureMessage(reply, "Failed to remove RFID"))))
    else
      var updated := Cleared(r.students, id);
      var idx := IndexOfId(updated, id);
      Step(Roster(updated, if idx >= 0 then idx else r.cursor, r.codes - {code}, r.input),
           Some(Notice(Success, "RFID " + code + " removed from student")))
  }

  // ----- stats and progress -----

  /** `students.filter(s => s.isAssigned).length` */
  function CountAssigned(students: seq<Student>): (n: nat)
    ensures n <= |students|
  {
    if students == [] then 0
    else (if students[0].isAssigned then 1 else 0) + CountAssigned(students[1..])
  }

  /** `students.filter(s => !s.isAssigned).length` */
  function CountPending(students: seq<Student>): (n: nat)
    ensures n == |students| - CountAssigned(students)
  {
    if students == [] then 0
    else (if students[0].isAssigned then 0 else 1) + CountPending(students[1..])
  }

  datatype Counts = Counts(total: nat, assignedCount: nat, pending: nat)

  /** The `stats` object: total, assigned and pending, which add up. */
  function StatsOf(students: seq<Student>): (s: Counts)
    ensures s.total == |students| && s.assignedCount + s.pending == s.total
  {
    Counts(|students|, CountAssigned(students), CountPending(students))
  }

  /** `Math.round((assignedCount / total) * 100)`, or 0 for an empty roster, in exact
      arithmetic: the integer nearest to 100 * count / total, halves
      rounding up. */
  function Percent(count: nat, total: nat): (pct: int)
    ensures total == 0 ==> pct == 0
    ensures total > 0 ==> -(total as int) <= 2 * (100 * count - pct * total) < total
  {
    if total == 0 then 0
    else
      var pct := (200 * count + total) / (2 * total);
      DivBounds(200 * count + total, 2 * total);
      pct
  }

  lemma DivBounds(n: nat, d: nat)
    requires d > 0
    ensures d * (n / d) <= n < d * (n / d) + d
  {
  }

  /** The percentage the progress bar shows for a roster. */
  function Progress(students: seq<Student>): (pct: int)
    ensures |students| == 0 ==> pct == 0
    ensures |students| > 0 ==>
      -|students| <= 2 * (100 * CountAssigned(students) - pct * |students|) < |students|
  {
    Percent(CountAssigned(students), |students|)
  }

  // ----- the invariant the page is meant to keep -----

  /** The codes some student holds. */
  ghost function HeldCodes(students: seq<Student>): set<string> {
    set i | 0 <= i < |students| && students[i].rfid != "" :: students[i].rfid
  }

  /** Flags agree with codes, no code is held twice, the set of used codes is
      exactly the held codes, and the cursor is the roster length or points at
      an unassigned student. */
  ghost predicate Consistent(r: Roster) {
    && (forall i :: 0 <= i < |r.students| ==> (r.students[i].isAssigned <==> r.students[i].rfid != ""))
    && (forall i, j :: 0 <= i < j < |r.students| && r.students[i].rfid != "" ==>
          r.students[i].rfid != r.students[j].rfid)
    && r.codes == HeldCodes(r.students)
    && r.cursor <= |r.students|
    && (r.cursor < |r.students| ==> !r.students[r.cursor].isAssigned)
  }

  /** No two students share an id. */
  ghost predicate UniqueIds(students: seq<Student>) {
    forall i, j :: 0 <= i < j < |students| ==> students[i].id != students[j].id
  }

  /** The alert field after a step: replaced when the step raises one. */
  function Shown(previous: Option<Notice>, notice: Option<Notice>): Option<Notice> {
    if notice.Some? then notice else previous
  }

  // ----- the page component -----

  class Sequencer {
    var students: seq<Student>
    var currentIndex: nat
    var assignedRfids: set<string>
    var rfid: string
    var status: Option<Notice>

    function State(): Roster
      reads this
    {
      Roster(students, currentIndex, assignedRfids, rfid)
    }

    constructor ()
      ensures State() == Roster([], 0, {}, "") && status == None
    {
      students, currentIndex, assignedRfids, rfid, status := [], 0, {}, "", None;
    }

    /** The scan input's onChange. */
    method Edit(text: string)
      modifies this`rfid
      ensures rfid == text
    {
      rfid := text;
    }

    /** The students effect once `getStudents` has settled: Some(data) when
        it resolved, None when it threw. */
    method Load(fetched: Option<seq<Fetched>>)
      modifies this
      ensures fetched.Some? ==> State() == Loaded(fetched.value, old(rfid)) && status == old(status)
      ensures fetched.None? ==>
        State() == old(State()) && status == Some(Notice(Error, "Failed to load students"))
    {
      if fetched.None? {
        status := Some(Notice(Error, "Failed to load students"));
        return;
      }
      var data := fetched.value;
      students := Flagged(data);
      var first := FirstUnassigned(data);
      currentIndex := if first >= 0 then first else 0;
      assignedRfids := UsedCodes(data);
    }

    method AssignRfid(reply: Reply)
      modifies this
      ensures State() == Assign(old(State()), reply).roster
      ensures status == Shown(old(status), Assign(old(State()), reply).notice)
    {
      var code := rfid;
      if code == "" {
        return;
      }
      if code in assignedRfids {
        status := Some(Notice(Error, "RFID " + code + " is already assigned"));
        return;
      }
      if currentIndex >= |students| {
        status := Some(Notice(Error, "All students are already assigned"));
        return;
      }
      var current := students[currentIndex];
      if Succeeded(reply) {
        var updated := students[currentIndex := current.(rfid := code, isAssigned := true)];
        students := updated;
        assignedRfids := assignedRfids + {code};
        status := Some(Notice(Success, "RFID " + code + " assigned to " + current.name));
        var next := Advance(updated, currentIndex + 1);
        currentIndex := Min(next, |updated|);
        rfid := "";
      } else {
        status := Some(Notice(Error, FailureMessage(reply, "Failed to assign RFID")));
      }
    }

    method HandleScan(key: string, reply: Reply)
      modifies this
      ensures State() == Scan(old(State()), key, reply).roster
      ensures status == Shown(old(status), Scan(old(State()), key, reply).notice)
    {
      if key == "Enter" {
        if Trim(rfid) == "" {
          status := Some(Notice(Error, "Please scan RFID first"));
          return;
        }
        AssignRfid(reply);
      }
    }

    method HandleRemoveRfid(id: string, code: string, reply: Reply)
      modifies this
      ensures State() == Remove(old(State()), id, code, reply).roster
      ensures status == Shown(old(status), Remove(old(State()), id, code, reply).notice)
    {
      if id == "" {
        return;
      }
      if !Succeeded(reply) {
        status := Some(Notice(Error, FailureMessage(reply, "Failed to remove RFID")));
        return;
      }
      var updated := Cleared(students, id);
      students := updated;
      assignedRfids := assignedRfids - {code};
      var idx := IndexOfId(updated, id);
      if idx >= 0 {
        currentIndex := idx;
      }
      status := Some(Notice(Success, "RFID " + code + " removed from student"));
    }

    /** The `stats` object. */
    function Stats(): (s: Counts)
      reads this
      ensures s.total == |students|
    {
      StatsOf(students)
    }
  }
}
