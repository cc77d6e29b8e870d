/**
 * The part of the model store that the attendance command uses: the filtered
 * person list the user sees, the participation list, and the replacement of
 * one participation by another. The store implementation is not part of this
 * model; this class states the interface the command relies on.
 */
module ModelStore {
  import opened Entities
  import opened Participations

  /** The position of the first element of `s` equal to `x`. */
  function IndexOf<X(==)>(s: seq<X>, x: X): (r: nat)
    requires x in s
    ensures r < |s| && s[r] == x
    ensures forall k :: 0 <= k < r ==> s[k] != x
  {
    if s[0] == x then 0 else 1 + IndexOf(s[1..], x)
  }

  /** No two participations in the list share a (student, tutorial) pair. */
  predicate UniquePairs(parts: seq<Participation>)
  {
    forall i, j :: 0 <= i < j < |parts| ==> !parts[i].IsSameParticipation(Some(parts[j]))
  }

  class Store {
    /** What `getFilteredPersonList` returns: the persons on display, in display order. */
    var filteredPersons: seq<Person>
    /** What `getParticipationList` returns. */
    var participations: seq<Participation>

    constructor (persons: seq<Person>, parts: seq<Participation>)
      ensures filteredPersons == persons && participations == parts
    {
      filteredPersons := persons;
      participations := parts;
    }

    /**
     * Replaces the element equal to `target` by `edited`; `target` must be in
     * the list. Nothing else in the store changes.
     */
    method SetParticipation(target: Participation, edited: Participation)
      requires target in participations
      modifies this
      ensures participations == old(participations)[IndexOf(old(participations), target) := edited]
      ensures filteredPersons == old(filteredPersons)
    {
      var i := IndexOf(participations, target);
      participations := participations[i := edited];
    }
  }
}
