/**
 * The command that marks one attendance for the student at a displayed index,
 * in a tutorial the student is enrolled in.
 */
module MarkAttendance {
  import opened Entities
  import opened Participations
  import opened ModelStore

  /** The two user-facing failures of the command. */
  datatype CommandError =
    | InvalidPersonDisplayedIndex
    | TutorialNotTaken(tutorial: Tutorial)

  /** What the success message names: the student, the tutorial and the attendance. */
  datatype CommandResult = MarkedAttendance(student: Person, tutorial: Tutorial, attendance: Attendance)

  datatype Outcome = Success(result: CommandResult) | Failure(error: CommandError)

  /** The lookup condition: the participation is the student's, in the tutorial. */
  predicate Matches(p: Participation, student: Person, tutorial: Tutorial)
  {
    p.student == student && p.tutorial == tutorial
  }

  /** The position of the first participation of `student` in `tutorial`, if any. */
  function FirstMatch(parts: seq<Participation>, student: Person, tutorial: Tutorial): (r: Option<nat>)
    ensures r.Some? ==> r.value < |parts| && Matches(parts[r.value], student, tutorial)
    ensures r.Some? ==> forall k :: 0 <= k < r.value ==> !Matches(parts[k], student, tutorial)
    ensures r.None? ==> forall k :: 0 <= k < |parts| ==> !Matches(parts[k], student, tutorial)
  {
    if |parts| == 0 then None
    else if Matches(parts[0], student, tutorial) then Some(0)
    else match FirstMatch(parts[1..], student, tutorial)
      case None => None
      case Some(k) => Some(k + 1)
  }

  /** The replacement participation: same student and tutorial, one more attendance at the end. */
  function WithAttendance(current: Participation, attendance: Attendance): (r: Participation)
    ensures r.IsSameParticipation(Some(current))
    ensures |r.attendanceList| == |current.attendanceList| + 1
    ensures r.attendanceList[..|current.attendanceList|] == current.attendanceList
    ensures r.attendanceList[|current.attendanceList|] == attendance
  {
    Participation(current.student, current.tutorial, current.attendanceList + [attendance])
  }

  /**
   * The command holds the target index, the attendance to record and the
   * tutorial; its fields are final, so it is a value.
   */
  datatype MarkAttendanceByStudentCommand = MarkAttendanceByStudentCommand(
    targetIndex: Index, attendance: Attendance, tutorial: Tutorial)
  {
    /**
     * The effect of executing the command on a store whose filtered person list
     * is `persons` and whose participation list is `parts`: the outcome and the
     * participation list afterwards.
     */
    function Apply(persons: seq<Person>, parts: seq<Participation>): (r: (Outcome, seq<Participation>))
      ensures |r.1| == |parts|
      ensures r.0.Failure? ==> r.1 == parts
      ensures r.0.Success? ==> (targetIndex.zeroBased < |persons|
                                && r.0.result == MarkedAttendance(persons[targetIndex.zeroBased], tutorial, attendance))
    {
      if targetIndex.zeroBased >= |persons| then
        (Failure(InvalidPersonDisplayedIndex), parts)
      else
        var student := persons[targetIndex.zeroBased];
        match FirstMatch(parts, student, tutorial)
        case None => (Failure(TutorialNotTaken(tutorial)), parts)
        case Some(j) =>
          (Success(MarkedAttendance(student, tutorial, attendance)), parts[j := WithAttendance(parts[j], attendance)])
    }

    /**
     * Validates the index and the enrolment, then replaces the matched
     * participation by one with the attendance appended. The filtered person
     * list is never changed.
     */
    method Execute(model: Store) returns (r: Outcome)
      modifies model
      ensures (r, model.participations) == Apply(old(model.filteredPersons), old(model.participations))
      ensures model.filteredPersons == old(model.filteredPersons)
    {
      var lastShownList := model.filteredPersons;
      if targetIndex.zeroBased >= |lastShownList| {
        return Failure(InvalidPersonDisplayedIndex);
      }
      var studentToMarkAttendance := lastShownList[targetIndex.zeroBased];
      var found := FirstMatch(model.participations, studentToMarkAttendance, tutorial);
      if found.None? {
        return Failure(TutorialNotTaken(tutorial));
      }
      var currentParticipation := model.participations[found.value];
      var updatedParticipation := WithAttendance(currentParticipation, attendance);
      FirstMatchIsFirstOccurrence(model.participations, studentToMarkAttendance, tutorial);
      model.SetParticipation(currentParticipation, updatedParticipation);
      r := Success(MarkedAttendance(studentToMarkAttendance, tutorial, attendance));
    }

    /** Two commands are equal when their index, attendance and tutorial are. */
    predicate Equals(other: Option<MarkAttendanceByStudentCommand>)
      ensures Equals(other) <==> other == Some(this)
    {
      other == Some(this)
      || (other.Some?
          && targetIndex == other.value.targetIndex
          && attendance == other.value.attendance
          && tutorial == other.value.tutorial)
    }
  }

  /** Building a command fails when any argument is missing. */
  function Create(targetIndex: Option<Index>, attendance: Option<Attendance>, tutorial: Option<Tutorial>)
    : (r: Option<MarkAttendanceByStudentCommand>)
    ensures r.Some? <==> targetIndex.Some? && attendance.Some? && tutorial.Some?
    ensures r.Some? ==> (r.value.targetIndex == targetIndex.value
                         && r.value.attendance == attendance.value
                         && r.value.tutorial == tutorial.value)
  {
    if targetIndex.None? || attendance.None? || tutorial.None? then None
    else Some(MarkAttendanceByStudentCommand(targetIndex.value, attendance.value, tutorial.value))
  }

  /**
   * The participation found by the lookup is also the first element equal to
   * it, so the store replaces exactly the participation that was found.
   */
  lemma {:induction false} FirstMatchIsFirstOccurrence(parts: seq<Participation>, student: Person, tutorial: Tutorial)
    requires FirstMatch(parts, student, tutorial).Some?
    ensures var j := FirstMatch(parts, student, tutorial).value;
            parts[j] in parts && IndexOf(parts, parts[j]) == j
  {
    var j := FirstMatch(parts, student, tutorial).value;
    var k := IndexOf(parts, parts[j]);
    assert Matches(parts[k], student, tutorial);
  }

  /**
   * The command fails exactly when the index is past the end of the displayed
   * list or the student has no participation in the tutorial; a failure leaves
   * the participation list as it was.
   */
  lemma FailureCases(cmd: MarkAttendanceByStudentCommand, persons: seq<Person>, parts: seq<Participation>)
    ensures cmd.Apply(persons, parts).0 == Failure(InvalidPersonDisplayedIndex)
            <==> cmd.targetIndex.zeroBased >= |persons|
    ensures cmd.Apply(persons, parts).0 == Failure(TutorialNotTaken(cmd.tutorial))
            <==> (cmd.targetIndex.zeroBased < |persons|
                  && forall k :: 0 <= k < |parts| ==> !Matches(parts[k], persons[cmd.targetIndex.zeroBased], cmd.tutorial))
    ensures cmd.Apply(persons, parts).0.Failure? ==> cmd.Apply(persons, parts).1 == parts
    ensures cmd.Apply(persons, parts).0.Failure? ==>
              cmd.Apply(persons, parts).0.error in {InvalidPersonDisplayedIndex, TutorialNotTaken(cmd.tutorial)}
  {
    if cmd.targetIndex.zeroBased < |persons| {
      var student := persons[cmd.targetIndex.zeroBased];
      if forall k :: 0 <= k < |parts| ==> !Matches(parts[k], student, cmd.tutorial) {
        assert FirstMatch(parts, student, cmd.tutorial).None?;
      }
    }
  }

  /**
   * When the index is valid and the indexed student takes the tutorial, the
   * command succeeds, naming the student, the tutorial and the attendance. The
   * first participation of the student in the tutorial gets the attendance
   * appended at the end of its history; it keeps its student and tutorial, and
   * every other participation is unchanged.
   */
  lemma SuccessReplacesFirstMatch(cmd: MarkAttendanceByStudentCommand, persons: seq<Person>, parts: seq<Participation>)
    requires cmd.targetIndex.zeroBased < |persons|
    requires exists k :: 0 <= k < |parts| && Matches(parts[k], persons[cmd.targetIndex.zeroBased], cmd.tutorial)
    ensures cmd.Apply(persons, parts).0
            == Success(MarkedAttendance(persons[cmd.targetIndex.zeroBased], cmd.tutorial, cmd.attendance))
    ensures var student := persons[cmd.targetIndex.zeroBased];
            var parts' := cmd.Apply(persons, parts).1;
            exists j ::
              && 0 <= j < |parts|
              && Matches(parts[j], student, cmd.tutorial)
              && (forall k :: 0 <= k < j ==> !Matches(parts[k], student, cmd.tutorial))
              && |parts'| == |parts|
              && parts'[j].IsSameParticipation(Some(parts[j]))
              && parts'[j].attendanceList == parts[j].attendanceList + [cmd.attendance]
              && (forall k :: 0 <= k < |parts| && k != j ==> parts'[k] == parts[k])
  {
    var student := persons[cmd.targetIndex.zeroBased];
    var j := FirstMatch(parts, student, cmd.tutorial).value;
    var parts' := cmd.Apply(persons, parts).1;
    assert parts'[j].attendanceList == parts[j].attendanceList + [cmd.attendance];
  }

  /** Replacing the first match by a participation of the same pair keeps it the first match. */
  lemma {:induction false} FirstMatchAfterReplace(parts: seq<Participation>, student: Person, tutorial: Tutorial, q: Participation)
    requires FirstMatch(parts, student, tutorial).Some?
    requires Matches(q, student, tutorial)
    ensures var j := FirstMatch(parts, student, tutorial).value;
            FirstMatch(parts[j := q], student, tutorial) == Some(j)
  {
    var j := FirstMatch(parts, student, tutorial).value;
    assert parts[j := q][j] == q;
  }

  /**
   * The command is not idempotent: executing it a second time succeeds again
   * and appends the attendance a second time to the same participation.
   */
  lemma {:induction false} ExecuteTwiceAppendsTwice(cmd: MarkAttendanceByStudentCommand, persons: seq<Person>, parts: seq<Participation>)
    requires cmd.Apply(persons, parts).0.Success?
    ensures var student := persons[cmd.targetIndex.zeroBased];
            var j := FirstMatch(parts, student, cmd.tutorial).value;
            var once := cmd.Apply(persons, parts);
            var twice := cmd.Apply(persons, once.1);
            && twice.0 == once.0
            && |twice.1| == |parts|
            && twice.1[j].attendanceList == parts[j].attendanceList + [cmd.attendance, cmd.attendance]
            && |twice.1[j].attendanceList| == |parts[j].attendanceList| + 2
  {
    var student := persons[cmd.targetIndex.zeroBased];
    var j := FirstMatch(parts, student, cmd.tutorial).value;
    var once := cmd.Apply(persons, parts);
    FirstMatchAfterReplace(parts, student, cmd.tutorial, WithAttendance(parts[j], cmd.attendance));
    assert FirstMatch(once.1, student, cmd.tutorial) == Some(j);
    assert (parts[j].attendanceList + [cmd.attendance]) + [cmd.attendance]
        == parts[j].attendanceList + [cmd.attendance, cmd.attendance];
  }

  /**
   * Marking attendance never puts two participations of the same pair into the
   * list: if the pairs were unique before, they are unique after.
   */
  lemma {:induction false} ApplyKeepsUniquePairs(cmd: MarkAttendanceByStudentCommand, persons: seq<Person>, parts: seq<Participation>)
    requires UniquePairs(parts)
    ensures UniquePairs(cmd.Apply(persons, parts).1)
  {
    var parts' := cmd.Apply(persons, parts).1;
    if cmd.Apply(persons, parts).0.Success? {
      var student := persons[cmd.targetIndex.zeroBased];
      var j := FirstMatch(parts, student, cmd.tutorial).value;
      forall i, k | 0 <= i < k < |parts'|
        ensures !parts'[i].IsSameParticipation(Some(parts'[k]))
      {
        assert !parts[i].IsSameParticipation(Some(parts[k]));
      }
    }
  }
}
