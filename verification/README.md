# Attendance marking in the tutor record manager

This project models the slice of the tutor record manager that marks a
student's attendance in a tutorial:

- **Participation** (`participation.dfy`, module `Participations`): the value
  that links one student to one tutorial and holds the attendance history in
  the order the entries were marked. It has two equalities. Weak identity
  (`IsSameParticipation`) compares only the (student, tutorial) pair. Full
  equality (`Equals`) also compares the history.
- **The model store interface** (`model_store.dfy`, module `ModelStore`): a
  class holding the filtered person list and the participation list, with
  `SetParticipation(target, edited)`. It replaces the first element equal to
  `target` and changes nothing else. The store implementation is not part of
  this model, so this class states the interface that the command relies on.
- **The mark-attendance-by-student command** (`mark_attendance.dfy`, module
  `MarkAttendance`). `Execute` runs these steps:
  1. Check the index against the filtered person list.
  2. Find the first participation of that student in the command's tutorial.
  3. Build a replacement participation whose history has the attendance appended.
  4. Ask the store to swap the old participation for the new one.

  `Execute` is proved against the pure function `Apply`. The lemmas about
  `Apply` state what the command promises:
  - each of the two failures happens exactly when its condition holds;
  - a failure leaves the store as it was;
  - on success, exactly the first matching participation is replaced;
  - the new history is the old history with one entry appended;
  - running the command twice appends the attendance twice;
  - if no two participations share a pair before, none do after.

`Person`, `Tutorial` and `Attendance` are opaque types (`entities.dfy`) whose
only operation is equality, which stands for their Java `equals`. Their
`copy()` is value-equal, so on values it is the value itself. A Java reference
that may be null is an `Option`.

Two details of the code that the model keeps:
- The "does not take tutorial" error is formatted from `tutorial` itself
  (src/main/java/seedu/address/logic/commands/MarkAttendanceByStudentCommand.java:73-74),
  while the success message uses `tutorial.getSubject()` (line 85). The model's
  `TutorialNotTaken` carries the tutorial.
- The lookup compares the student and the tutorial with `equals`. This is the
  same comparison as weak identity (the contract of `IsSameParticipation`).

## Model

| member | source | states |
|---|---|---|
| `Participations.Enrol` | src/main/java/seedu/address/model/participation/Participation.java:26-31 | a new enrolment holds the given student and tutorial and an empty history, and is weakly the same as every participation of that pair |
| `Participations.Participation.Equals` | src/main/java/seedu/address/model/participation/Participation.java:96-110 | comparing student, tutorial and history field by field (with the identity shortcut and null) is exactly value equality of the participation |
| `Participations.Participation.IsSameParticipation` | src/main/java/seedu/address/model/participation/Participation.java:76-82 | weak identity holds exactly when the other participation is present and has an equal student and an equal tutorial; the identity shortcut changes nothing |
| `Participations.IsSameReflexive` | src/main/java/seedu/address/model/participation/Participation.java:76-79 | every participation is weakly the same as itself |
| `Participations.IsSameNeverNull` | src/main/java/seedu/address/model/participation/Participation.java:80 | no participation is weakly the same as null |
| `Participations.IsSameSymmetric` | src/main/java/seedu/address/model/participation/Participation.java:80-81 | weak identity is symmetric |
| `Participations.IsSameTransitive` | src/main/java/seedu/address/model/participation/Participation.java:80-81 | weak identity is transitive |
| `Participations.EqualsImpliesSame` | src/main/java/seedu/address/model/participation/Participation.java:96-110 | full equality implies weak identity |
| `Participations.HistorySeparatesEquality` | src/main/java/seedu/address/model/participation/Participation.java:76-110 | two participations of one pair with different histories are weakly the same but not equal |
| `Participations.Participation.Copy` | src/main/java/seedu/address/model/participation/Participation.java:87-89 | the copy is equal and weakly the same as the original, with the same student, tutorial and history |
| `ModelStore.IndexOf` | src/main/java/seedu/address/logic/commands/MarkAttendanceByStudentCommand.java:82 | the element the store replaces is the first one equal to the target |
| `ModelStore.Store.SetParticipation` | src/main/java/seedu/address/logic/commands/MarkAttendanceByStudentCommand.java:82 | the first element equal to the target is replaced by the edited one; the rest of the list and the person list are unchanged |
| `MarkAttendance.Create` | src/main/java/seedu/address/logic/commands/MarkAttendanceByStudentCommand.java:52-57 | a command is built exactly when index, attendance and tutorial are all present, and it holds them |
| `MarkAttendance.FirstMatch` | src/main/java/seedu/address/logic/commands/MarkAttendanceByStudentCommand.java:68-74 | the lookup finds the first participation of the student in the tutorial, or reports that none exists |
| `MarkAttendance.WithAttendance` | src/main/java/seedu/address/logic/commands/MarkAttendanceByStudentCommand.java:76-80 | the replacement is weakly the same as the matched participation, and its history is the old history followed by the new attendance |
| `MarkAttendance.MarkAttendanceByStudentCommand.Execute` | src/main/java/seedu/address/logic/commands/MarkAttendanceByStudentCommand.java:59-86 | the outcome and the new participation list are those of `Apply` on the old store; the filtered person list is unchanged |
| `MarkAttendance.MarkAttendanceByStudentCommand.Apply` | src/main/java/seedu/address/logic/commands/MarkAttendanceByStudentCommand.java:59-86 | the effect of executing the command: the participation list keeps its length, a failure leaves it unchanged, and a success names the indexed student, the command's tutorial and the attendance |
| `MarkAttendance.MarkAttendanceByStudentCommand.Equals` | src/main/java/seedu/address/logic/commands/MarkAttendanceByStudentCommand.java:88-103 | two commands are equal exactly when their index, attendance and tutorial are equal |
| `MarkAttendance.FailureCases` | src/main/java/seedu/address/logic/commands/MarkAttendanceByStudentCommand.java:62-74 | the invalid-index failure happens exactly when the index is past the displayed list; the not-taken failure, carrying the command's tutorial, happens exactly when the index is valid and no participation matches; no other failure occurs; a failure leaves the participation list unchanged |
| `MarkAttendance.SuccessReplacesFirstMatch` | src/main/java/seedu/address/logic/commands/MarkAttendanceByStudentCommand.java:68-82 | when the index is valid and some participation matches, the command succeeds naming the indexed student, the tutorial and the attendance; the first matching participation gets the attendance appended and keeps its pair; the list length and every other participation are unchanged |
| `MarkAttendance.FirstMatchIsFirstOccurrence` | src/main/java/seedu/address/logic/commands/MarkAttendanceByStudentCommand.java:68-82 | the participation the lookup found is the one the store replaces |
| `MarkAttendance.FirstMatchAfterReplace` | src/main/java/seedu/address/logic/commands/MarkAttendanceByStudentCommand.java:68-82 | after the replacement, the lookup finds the same position again |
| `MarkAttendance.ExecuteTwiceAppendsTwice` | src/main/java/seedu/address/logic/commands/MarkAttendanceByStudentCommand.java:76-82 | the command is not idempotent: a second run succeeds with the same outcome and the history has grown by two copies of the attendance |
| `MarkAttendance.ApplyKeepsUniquePairs` | src/main/java/seedu/address/logic/commands/MarkAttendanceByStudentCommand.java:76-82 | if no two participations share a (student, tutorial) pair before the command, none do after it |

## Left out

- Message text: the success and error strings built with `String.format`, and the `toString` dumps of both classes. Outcomes are abstract tags that carry the student, tutorial and attendance the messages would name.
- `getTutorialSubject`, and the internals of `Person`, `Tutorial`, `Attendance` and `Index` with their `copy()` methods. These are opaque types compared by equality.
- `getAttendanceList` returns the list object the participation holds, although its comment promises a new list. The history is an immutable sequence here, so the aliasing through the returned list is not modelled.
- Null arguments to the participation constructors and `requireNonNull(model)` in `execute`. Dafny values cannot be null. Null is modelled only for the command's constructor and for the argument of `isSameParticipation` and `equals`. Both `equals` methods take an optional value of their own class, so calling Java's `equals(Object)` with an object of another class, which returns false (src/main/java/seedu/address/model/participation/Participation.java:102-104 and src/main/java/seedu/address/logic/commands/MarkAttendanceByStudentCommand.java:95-97), is not modelled.
- The store implementation and its observable lists. `ModelStore.Store.SetParticipation` is an assumed interface. It requires the target to be present and replaces the first equal element. Any duplicate-pair check of the real store is not part of this model.
- The parser constants (`COMMAND_WORD`, `MESSAGE_USAGE`, the prefixes) and the person card of the user interface.
