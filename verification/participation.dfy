/**
 * The enrolment of one student in one tutorial, with its attendance history in
 * the order the entries were marked.
 */
module Participations {
  import opened Entities

  /**
   * The three-field value of a participation; the constructor is the Java
   * constructor that takes an explicit history. All fields are final, so the
   * record is a value: `getStudent`, `getTutorial` and `getAttendanceList` are
   * the destructors (the copies the getters hand out are value-equal).
   */
  datatype Participation = Participation(student: Person, tutorial: Tutorial, attendanceList: seq<Attendance>)
  {
    /**
     * Weak identity: the other participation exists and has an equal tutorial
     * and an equal student; the attendance history is not compared.
     */
    predicate IsSameParticipation(other: Option<Participation>)
      ensures IsSameParticipation(other)
              <==> (other.Some? && other.value.student == student && other.value.tutorial == tutorial)
    {
      other == Some(this)
      || (other.Some? && other.value.tutorial == tutorial && other.value.student == student)
    }

    /** Full equality: student, tutorial and attendance history all equal. */
    predicate Equals(other: Option<Participation>)
      ensures Equals(other) <==> other == Some(this)
    {
      other == Some(this)
      || (other.Some?
          && student == other.value.student
          && tutorial == other.value.tutorial
          && attendanceList == other.value.attendanceList)
    }

    /** Participations are values, so the copy is the participation itself. */
    function Copy(): (c: Participation)
      ensures c.Equals(Some(this)) && c.IsSameParticipation(Some(this))
      ensures c.student == student && c.tutorial == tutorial && c.attendanceList == attendanceList
    {
      this
    }
  }

  /** A new enrolment: the student in the tutorial, with nothing marked yet. */
  function Enrol(student: Person, tutorial: Tutorial): (p: Participation)
    ensures p.student == student && p.tutorial == tutorial
    ensures p.attendanceList == []
    ensures forall h :: p.IsSameParticipation(Some(Participation(student, tutorial, h)))
  {
    Participation(student, tutorial, [])
  }

  /** Every participation is weakly the same as itself. */
  lemma IsSameReflexive(p: Participation)
    ensures p.IsSameParticipation(Some(p))
  {
  }

  /** No participation is weakly the same as a missing one. */
  lemma IsSameNeverNull(p: Participation)
    ensures !p.IsSameParticipation(None)
  {
  }

  /** Weak identity does not depend on the order of its arguments. */
  lemma IsSameSymmetric(p: Participation, q: Participation)
    ensures p.IsSameParticipation(Some(q)) <==> q.IsSameParticipation(Some(p))
  {
  }

  /** Weak identity is transitive, so it partitions participations by their pair. */
  lemma IsSameTransitive(p: Participation, q: Participation, r: Participation)
    requires p.IsSameParticipation(Some(q)) && q.IsSameParticipation(Some(r))
    ensures p.IsSameParticipation(Some(r))
  {
  }

  /** Full equality implies weak identity. */
  lemma EqualsImpliesSame(p: Participation, q: Participation)
    ensures p.Equals(Some(q)) ==> p.IsSameParticipation(Some(q))
  {
  }

  /**
   * Two participations of the same pair with different histories are weakly the
   * same but not equal.
   */
  lemma HistorySeparatesEquality(student: Person, tutorial: Tutorial, h1: seq<Attendance>, h2: seq<Attendance>)
    requires h1 != h2
    ensures Participation(student, tutorial, h1).IsSameParticipation(Some(Participation(student, tutorial, h2)))
    ensures !Participation(student, tutorial, h1).Equals(Some(Participation(student, tutorial, h2)))
  {
  }
}
