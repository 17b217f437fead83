/** The attendance desk: a card code scanned in mode "in" marks a known
    student as inside, in mode "out" as outside, and a scan that would not
    change where the student is reports so instead. The saved assignments
    (kept in the browser's storage by the page) and the scan time are
    inputs of each scan. */
module Attendance {
  import opened Wrappers
  import opened Text

  /** One saved assignment: a card code and the student it belongs to. */
  datatype Saved = Saved(rfid: string, name: string)

  datatype Mode = In | Out

  /** What the desk shows after a scan: a marked entry or exit, or a
      refusal with its message. */
  datatype Card =
    | Marked(name: string, status: Mode, time: string, message: string)
    | Refused(message: string)

  /** The result of one key press: nothing happened, or a card was shown
      and the map of who is inside became `active`. */
  datatype Outcome = Ignored | Scanned(active: map<string, bool>, card: Card)

  /** The mode toggle button: "in" becomes "out" and back. */
  function Flip(m: Mode): (r: Mode)
    ensures r != m
  {
    if m == In then Out else In
  }

  lemma FlipTwice(m: Mode)
    ensures Flip(Flip(m)) == m
  {
  }

  /** `saved.find(item => item.rfid === code)`: the first saved assignment
      with that code. */
  function FindSaved(saved: seq<Saved>, code: string): (found: Option<Saved>)
    ensures found.None? <==> forall i :: 0 <= i < |saved| ==> saved[i].rfid != code
    ensures found.Some? ==>
      exists i :: (0 <= i < |saved| && saved[i] == found.value && saved[i].rfid == code
                   && forall j :: 0 <= j < i ==> saved[j].rfid != code)
  {
    if saved == [] then None
    else if saved[0].rfid == code then Some(saved[0])
    else
      var rest := FindSaved(saved[1..], code);
      assert forall i :: 1 <= i < |saved| ==> saved[i] == saved[1..][i - 1];
      rest
  }

  /** The names every plain JavaScript object answers through its
      prototype, numbered 0 to 11: `activeStudents[code]` for such a name
      without an own entry reads a function or the prototype itself, and
      either is truthy. */
  function PrototypeMember(k: nat): string {
    if k == 0 then "constructor"
    else if k == 1 then "hasOwnProperty"
    else if k == 2 then "isPrototypeOf"
    else if k == 3 then "propertyIsEnumerable"
    else if k == 4 then "toLocaleString"
    else if k == 5 then "toString"
    else if k == 6 then "valueOf"
    else if k == 7 then "__proto__"
    else if k == 8 then "__defineGetter__"
    else if k == 9 then "__defineSetter__"
    else if k == 10 then "__lookupGetter__"
    else "__lookupSetter__"
  }

  /** Whether `code` is one of the prototype members numbered below `k`. */
  predicate MemberBelow(code: string, k: nat) {
    k > 0 && (PrototypeMember(k - 1) == code || MemberBelow(code, k - 1))
  }

  /** Whether `code` names a member every object inherits. */
  predicate Inherited(code: string) {
    MemberBelow(code, 12)
  }

  /** Whether `activeStudents[code]` is truthy: an own entry decides; a code
      without one is outside unless it names an inherited member. */
  function IsInside(active: map<string, bool>, code: string): (inside: bool)
    ensures code in active ==> (inside <==> active[code])
    ensures code !in active ==> (inside <==> Inherited(code))
  {
    if code in active then active[code] else Inherited(code)
  }

  /** `handleScan` on Enter with input `input`. `saved` is None when reading
      or parsing the stored assignments fails. */
  function ScanStep(active: map<string, bool>, mode: Mode, input: string,
                    saved: Option<seq<Saved>>, time: string): (o: Outcome)
    ensures o.Ignored? <==> Trim(input) == ""
    ensures o.Scanned? ==> o.active.Keys <= active.Keys + {Trim(input)}
    ensures o.Scanned? && saved.None? ==> o == Scanned(active, Refused("Local storage error"))
  {
    var code := Trim(input);
    if code == "" then Ignored else Decide(active, mode, code, saved, time)
  }

  /** The body of the `try` for the trimmed, non-blank code `code`. */
  function Decide(active: map<string, bool>, mode: Mode, code: string,
                  saved: Option<seq<Saved>>, time: string): (o: Outcome)
    ensures o.Scanned? && o.active.Keys <= active.Keys + {code}
    ensures saved.None? ==> o == Scanned(active, Refused("Local storage error"))
    ensures !o.card.Marked? ==> o.active == active
    ensures o.card.Marked? ==> o.active == active[code := mode == In]
    ensures o.card.Marked? ==> IsInside(active, code) != (mode == In)
    ensures o.card.Marked? ==> o.card.status == mode
    ensures saved.Some? && FindSaved(saved.value, code).Some? ==>
      (o.card.Marked? <==> IsInside(active, code) != (mode == In))
  {
    if saved.None? then Scanned(active, Refused("Local storage error"))
    else
      match FindSaved(saved.value, code)
      case None => Scanned(active, Refused("RFID not recognized"))
      case Some(found) =>
        var inside := IsInside(active, code);
        if mode == In then
          if inside then Scanned(active, Refused(found.name + " is already inside."))
          else Scanned(active[code := true],
                       Marked(found.name, In, time, "Welcome " + found.name + ", have a great day! \U{1F389}"))
        else
          assert mode == Out;
          if !inside then Scanned(active, Refused(found.name + " is already outside."))
          else Scanned(active[code := false],
                       Marked(found.name, Out, time, "Goodbye " + found.name + ", see you tomorrow! \U{1F44B}"))
  }

  /** The attendance page's state. */
  class Desk {
    var activeStudents: map<string, bool>
    var mode: Mode
    var rfid: string
    var attendance: Option<Card>

    constructor ()
      ensures activeStudents == map[] && mode == In && rfid == "" && attendance == None
    {
      activeStudents, mode, rfid, attendance := map[], In, "", None;
    }

    /** The input's onChange. */
    method Edit(text: string)
      modifies this`rfid
      ensures rfid == text
    {
      rfid := text;
    }

    /** The key handler. A key other than Enter, or Enter on blank input,
        does nothing; otherwise the card is shown, the map updated as
        ScanStep says, and the input cleared whatever the outcome. */
    method HandleScan(key: string, saved: Option<seq<Saved>>, time: string)
      modifies this
      ensures mode == old(mode)
      ensures var o := ScanStep(old(activeStudents), old(mode), old(rfid), saved, time);
        if key != "Enter" || o.Ignored? then
          activeStudents == old(activeStudents) && rfid == old(rfid) && attendance == old(attendance)
        else
          activeStudents == o.active && attendance == Some(o.card) && rfid == ""
    {
      if key != "Enter" {
        return;
      }
      var code := Trim(rfid);
      if code == "" {
        return;
      }
      attendance := None;
      Mark(code, saved, time);
      rfid := "";
    }

    /** Looks the code up and marks or refuses it, as Decide says. */
    method Mark(code: string, saved: Option<seq<Saved>>, time: string)
      modifies this`activeStudents, this`attendance
      ensures attendance.Some?
      ensures Scanned(activeStudents, attendance.value) == Decide(old(activeStudents), mode, code, saved, time)
    {
      if saved.None? {
        attendance := Some(Refused("Local storage error"));
        return;
      }
      var found := FindSaved(saved.value, code);
      if found.None? {
        attendance := Some(Refused("RFID not recognized"));
        return;
      }
      var name := found.value.name;
      var inside := IsInside(activeStudents, code);
      if mode == In {
        if inside {
          attendance := Some(Refused(name + " is already inside."));
        } else {
          attendance := Some(Marked(name, In, time, "Welcome " + name + ", have a great day! \U{1F389}"));
          activeStudents := activeStudents[code := true];
        }
      } else {
        if !inside {
          attendance := Some(Refused(name + " is already outside."));
        } else {
          attendance := Some(Marked(name, Out, time, "Goodbye " + name + ", see you tomorrow! \U{1F44B}"));
          activeStudents := activeStudents[code := false];
        }
      }
    }

    /** The mode button. */
    method ToggleMode()
      modifies this`mode
      ensures mode == Flip(old(mode))
    {
      mode := if mode == In then Out else In;
    }
  }

  /** Enter does nothing exactly when the input is white space only. */
  lemma BlankScanIgnored(active: map<string, bool>, mode: Mode, input: string,
                         saved: Option<seq<Saved>>, time: string)
    ensures ScanStep(active, mode, input, saved, time).Ignored? <==> AllWhite(input)
  {
    TrimEmptyIffAllWhite(input);
  }

  /** A trimmed code no saved assignment carries is refused as not
      recognized, and nobody moves. */
  lemma UnknownCodeRefused(active: map<string, bool>, mode: Mode, input: string,
                           saved: seq<Saved>, time: string)
    requires !AllWhite(input)
    requires forall i :: 0 <= i < |saved| ==> saved[i].rfid != Trim(input)
    ensures ScanStep(active, mode, input, Some(saved), time) == Scanned(active, Refused("RFID not recognized"))
  {
    TrimEmptyIffAllWhite(input);
  }

  /** Mode "in": a known code that is outside (with no entry or a false
      one) is marked in and becomes inside; one already inside is refused
      and the map stays as it was. */
  lemma InModeScan(active: map<string, bool>, input: string, saved: seq<Saved>, time: string)
    requires Trim(input) != ""
    requires exists i :: 0 <= i < |saved| && saved[i].rfid == Trim(input)
    ensures var code := Trim(input);
      var name := FindSaved(saved, code).value.name;
      var o := ScanStep(active, In, input, Some(saved), time);
      if IsInside(active, code) then
        o == Scanned(active, Refused(name + " is already inside."))
      else
        && o.active == active[code := true]
        && o.card.Marked? && o.card.status == In && o.card.name == name && o.card.time == time
  {
    var code := Trim(input);
    assert ScanStep(active, In, input, Some(saved), time) == Decide(active, In, code, Some(saved), time);
  }

  /** Mode "out": a known code that is inside is marked out and becomes
      outside; one that is not inside is refused and the map stays. */
  lemma OutModeScan(active: map<string, bool>, input: string, saved: seq<Saved>, time: string)
    requires Trim(input) != ""
    requires exists i :: 0 <= i < |saved| && saved[i].rfid == Trim(input)
    ensures var code := Trim(input);
      var name := FindSaved(saved, code).value.name;
      var o := ScanStep(active, Out, input, Some(saved), time);
      if !IsInside(active, code) then
        o == Scanned(active, Refused(name + " is already outside."))
      else
        && o.active == active[code := false]
        && o.card.Marked? && o.card.status == Out && o.card.name == name && o.card.time == time
  {
    var code := Trim(input);
    assert ScanStep(active, Out, input, Some(saved), time) == Decide(active, Out, code, Some(saved), time);
  }

  /** A scan either marks the student, flipping the one entry of the
      trimmed code to the mode's side, or leaves the map exactly as it was;
      no other entry ever changes. */
  lemma ScanFlipsAtMostOne(active: map<string, bool>, mode: Mode, input: string,
                           saved: Option<seq<Saved>>, time: string)
    requires ScanStep(active, mode, input, saved, time).Scanned?
    ensures var o := ScanStep(active, mode, input, saved, time);
      var code := Trim(input);
      && (o.card.Marked? <==> o.active != active)
      && (o.card.Marked? ==> IsInside(active, code) != IsInside(o.active, code)
                             && IsInside(o.active, code) == (mode == In))
      && o.active.Keys <= active.Keys + {code}
      && forall k :: k in active && k != code ==> k in o.active && o.active[k] == active[k]
  {
    var o := ScanStep(active, mode, input, saved, time);
    var code := Trim(input);
    assert o == Decide(active, mode, code, saved, time);
    if o.card.Marked? {
      assert IsInside(o.active, code) == (mode == In);
      if code in active {
        assert active[code] != o.active[code];
      } else {
        assert code in o.active;
      }
    }
  }

  /** A card saved under an inherited name reads as inside even when no
      scan has put it there: mode "in" refuses it on an empty map. */
  lemma InheritedNameCountsInside(name: string, time: string)
    ensures ScanStep(map[], In, "constructor", Some([Saved("constructor", name)]), time)
      == Scanned(map[], Refused(name + " is already inside."))
  {
    var code := "constructor";
    assert Trim(code) == code by {
      assert !IsWhite(code[0]) && !IsWhite(code[|code| - 1]);
      assert TrimStart(code) == code;
      assert TrimEnd(code) == code;
    }
    assert PrototypeMember(0) == code;
    assert Inherited(code);
    assert FindSaved([Saved(code, name)], code) == Some(Saved(code, name));
  }

  /** Scanning the same card twice in the same mode marks it once: the
      second scan is refused. */
  lemma RepeatScanRefused(active: map<string, bool>, mode: Mode, input: string,
                          saved: seq<Saved>, time1: string, time2: string)
    requires ScanStep(active, mode, input, Some(saved), time1).Scanned?
    requires ScanStep(active, mode, input, Some(saved), time1).card.Marked?
    ensures var first := ScanStep(active, mode, input, Some(saved), time1);
      var second := ScanStep(first.active, mode, input, Some(saved), time2);
      second.Scanned? && second.card.Refused? && second.active == first.active
  {
    var code := Trim(input);
    var first := ScanStep(active, mode, input, Some(saved), time1);
    assert first == Decide(active, mode, code, Some(saved), time1);
    assert first.active == active[code := mode == In];
    assert IsInside(first.active, code) == (mode == In);
  }

  /** In, then toggle, then the same card again: the student is marked out
      and the code ends up outside. */
  lemma InThenOut(active: map<string, bool>, input: string, saved: seq<Saved>, t1: string, t2: string)
    requires Trim(input) != ""
    requires exists i :: 0 <= i < |saved| && saved[i].rfid == Trim(input)
    requires !IsInside(active, Trim(input))
    ensures var first := ScanStep(active, In, input, Some(saved), t1);
      var second := ScanStep(first.active, Flip(In), input, Some(saved), t2);
      && first.card.Marked? && second.card.Marked? && second.card.status == Out
      && second.active == active[Trim(input) := false]
  {
    var code := Trim(input);
    assert FindSaved(saved, code).Some?;
    var first := ScanStep(active, In, input, Some(saved), t1);
    assert first == Decide(active, In, code, Some(saved), t1);
    assert ScanStep(first.active, Out, input, Some(saved), t2) == Decide(first.active, Out, code, Some(saved), t2);
    DecideInThenOut(active, code, saved, t1, t2);
  }

  /** InThenOut for an already trimmed code. */
  lemma DecideInThenOut(active: map<string, bool>, code: string, saved: seq<Saved>, t1: string, t2: string)
    requires FindSaved(saved, code).Some? && !IsInside(active, code)
    ensures var first := Decide(active, In, code, Some(saved), t1);
      var second := Decide(first.active, Out, code, Some(saved), t2);
      && first.card.Marked? && second.card.Marked? && second.card.status == Out
      && second.active == active[code := false]
  {
    var first := Decide(active, In, code, Some(saved), t1);
    assert IsInside(first.active, code);
    assert first.active[code := false] == active[code := false];
  }
}
