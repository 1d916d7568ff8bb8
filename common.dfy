/** Small helpers shared by the models of the four scripts. */
module Common {

  /** A value that may be missing, such as a NULL field of a table row. */
  datatype Option<+T> = None | Some(value: T)

  /** Position of the first occurrence of x in s, as Python's list.index(x) gives it. */
  function IndexOf<T(==)>(s: seq<T>, x: T): (k: nat)
    requires x in s
    ensures k < |s| && s[k] == x
    ensures forall j :: 0 <= j < k ==> s[j] != x
  {
    if s[0] == x then 0 else 1 + IndexOf(s[1..], x)
  }

  /** A set of integers is empty or has an element; lets a loop pick an arbitrary key,
      as iteration over a dictionary does. */
  lemma EmptyOrHasElement(s: set<int>)
    ensures s == {} || exists x :: x in s
  {
    if forall x :: x !in s {
      assert s == {};
    }
  }

  /** Largest element of a non-empty sequence, as Python's max(list) gives it. */
  function Max(s: seq<int>): (m: int)
    requires |s| > 0
    ensures m in s
    ensures forall j :: 0 <= j < |s| ==> s[j] <= m
  {
    if |s| == 1 then s[0]
    else
      var rest := Max(s[1..]);
      if s[0] >= rest then s[0] else rest
  }
}

/** The records of the statewide collision database that the scripts read. */
module Switrs {
  import opened Common

  /** One party to a collision: PARTY_TYPE (1 driver, 2 pedestrian, 4 bicyclist, others),
      DIR_OF_TRAVEL, MOVE_PRE_ACC (movement preceding the collision) and OAF_VIOL_SECTION.
      A NULL field is None. */
  datatype Party = Party(
    partyType: int,
    dir: Option<string>,
    movement: Option<string>,
    oafSection: Option<int>)

  /** One collision row. The parties are those the party table holds for its CASE_ID,
      in cursor order; the date is a day number; the distance is in feet from the
      intersection the row is attached to. */
  datatype Collision = Collision(
    caseId: int,
    date: int,
    segId: Option<string>,
    intId: Option<int>,
    distance: Option<real>,
    alcohol: Option<string>,
    pedestrian: Option<string>,
    bicycle: Option<string>,
    severity: Option<int>,
    pcf: Option<string>,
    collisionType: Option<string>,
    parties: seq<Party>)
}
