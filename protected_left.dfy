/** Candidate locations for protected left turns: for every signalised intersection, the
    left- and U-turn collisions attached to it are counted by the turning party's direction
    of travel, and the five counts are written into the intersection's row in place. */
module ProtectedLeft {
  import opened Common

  /** One row of the joined party/collision table: DIR_OF_TRAVEL and the IntID of the
      intersection the collision is attached to (either may be NULL). */
  datatype TurnCollision = TurnCollision(dir: Option<string>, intId: Option<int>)

  /** One row of the signalised intersection table: ASSETID (which may be NULL) followed by
      the five counts. Before the update the count fields hold whatever the table held. */
  datatype IntersectionRow = IntersectionRow(assetId: Option<int>, north: int, south: int, east: int, west: int, notStated: int)

  /** The five counters. */
  datatype Counts = Counts(north: nat, south: nat, east: nat, west: nat, notStated: nat)

  datatype Heading = North | South | East | West | NotStated

  /** The counter a direction of travel goes to: exactly "N", "S", "E" or "W", and anything
      else, a NULL included, is not stated. */
  function HeadingOf(dir: Option<string>): (h: Heading)
    ensures h == North <==> dir == Some("N")
    ensures h == South <==> dir == Some("S")
    ensures h == East <==> dir == Some("E")
    ensures h == West <==> dir == Some("W")
  {
    if dir == Some("N") then North
    else if dir == Some("S") then South
    else if dir == Some("E") then East
    else if dir == Some("W") then West
    else NotStated
  }

  function Bump(c: Counts, h: Heading): Counts {
    match h
    case North => c.(north := c.north + 1)
    case South => c.(south := c.south + 1)
    case East => c.(east := c.east + 1)
    case West => c.(west := c.west + 1)
    case NotStated => c.(notStated := c.notStated + 1)
  }

  function Total(c: Counts): nat {
    c.north + c.south + c.east + c.west + c.notStated
  }

  /** The collisions whose IntID equals the intersection's ASSETID, in table order. The test
      is Python's `==`, so a NULL ASSETID matches every collision with a NULL IntID. */
  function At(cs: seq<TurnCollision>, id: Option<int>): (r: seq<TurnCollision>)
    ensures |r| <= |cs|
  {
    if cs == [] then []
    else if Last(cs).intId == id then At(AllButLast(cs), id) + [Last(cs)]
    else At(AllButLast(cs), id)
  }

  function Last<T>(s: seq<T>): T
    requires |s| > 0
  {
    s[|s| - 1]
  }

  function AllButLast<T>(s: seq<T>): seq<T>
    requires |s| > 0
  {
    s[..|s| - 1]
  }

  /** The counts a scan of the whole collision table gives intersection id: every collision
      attached to it lands in exactly one counter. */
  function Count(cs: seq<TurnCollision>, id: Option<int>): Counts {
    if cs == [] then Counts(0, 0, 0, 0, 0)
    else if Last(cs).intId == id then Bump(Count(AllButLast(cs), id), HeadingOf(Last(cs).dir))
    else Count(AllButLast(cs), id)
  }

  /** At holds exactly the collisions whose IntID is the intersection's. */
  lemma {:induction false} AtMembership(cs: seq<TurnCollision>, id: Option<int>)
    ensures forall c :: c in At(cs, id) <==> c in cs && c.intId == id
  {
    if cs != [] {
      AtMembership(AllButLast(cs), id);
      assert cs == AllButLast(cs) + [Last(cs)];
    }
  }

  /** Every collision attached to the intersection lands in exactly one of the five counters:
      together they count all of them. */
  lemma {:induction false} CountTotal(cs: seq<TurnCollision>, id: Option<int>)
    ensures Total(Count(cs, id)) == |At(cs, id)|
  {
    if cs != [] {
      CountTotal(AllButLast(cs), id);
    }
  }

  /** A scan that meets a collision whose IntID differs from the ASSETID leaves the counts as
      they were, wherever that collision stands in the table. */
  lemma {:induction false} OtherIntersectionsIgnored(before: seq<TurnCollision>, c: TurnCollision,
                                                     after: seq<TurnCollision>, id: Option<int>)
    requires c.intId != id
    ensures Count(before + [c] + after, id) == Count(before + after, id)
    decreases |after|
  {
    if after == [] {
      assert AllButLast(before + [c]) == before;
      assert before + [c] + after == before + [c];
      assert before + after == before;
    } else {
      var cs := before + [c] + after;
      var ds := before + after;
      OtherIntersectionsIgnored(before, c, AllButLast(after), id);
      assert AllButLast(cs) == before + [c] + AllButLast(after);
      assert AllButLast(ds) == before + AllButLast(after);
      assert Last(cs) == Last(ds) == Last(after);
    }
  }

  /** The counts depend only on the collisions attached to the intersection. */
  lemma {:induction false} CountOnlyAt(cs: seq<TurnCollision>, id: Option<int>)
    ensures Count(cs, id) == Count(At(cs, id), id)
  {
    if cs != [] {
      var a := At(AllButLast(cs), id);
      CountOnlyAt(AllButLast(cs), id);
      if Last(cs).intId == id {
        assert AllButLast(a + [Last(cs)]) == a;
      }
    }
  }

  /** The collisions whose direction of travel is exactly d, in table order. */
  function Travelling(cs: seq<TurnCollision>, d: string): (r: seq<TurnCollision>)
    ensures |r| <= |cs|
  {
    if cs == [] then []
    else Travelling(AllButLast(cs), d) + if Last(cs).dir == Some(d) then [Last(cs)] else []
  }

  /** A direction of travel that is none of "N", "S", "E" and "W", NULL included. */
  predicate Unstated(dir: Option<string>) {
    dir != Some("N") && dir != Some("S") && dir != Some("E") && dir != Some("W")
  }

  /** The collisions whose direction of travel is not stated, in table order. */
  function NotStatedIn(cs: seq<TurnCollision>): (r: seq<TurnCollision>)
    ensures |r| <= |cs|
  {
    if cs == [] then []
    else NotStatedIn(AllButLast(cs)) + if Unstated(Last(cs).dir) then [Last(cs)] else []
  }

  /** The counts of a run of collisions that are all at the intersection, in closed form. */
  lemma {:induction false} CountAllAt(xs: seq<TurnCollision>, id: Option<int>)
    requires forall k :: 0 <= k < |xs| ==> xs[k].intId == id
    ensures Count(xs, id) == Counts(|Travelling(xs, "N")|, |Travelling(xs, "S")|, |Travelling(xs, "E")|,
                                    |Travelling(xs, "W")|, |NotStatedIn(xs)|)
  {
    if xs != [] {
      var front := AllButLast(xs);
      assert forall k :: 0 <= k < |front| ==> front[k] == xs[k];
      CountAllAt(front, id);
      assert Last(xs).intId == id;
    }
  }

  /** Each counter in closed form: north, south, east and west are the numbers of collisions at
      the intersection travelling exactly "N", "S", "E" and "W"; notStated counts the rest. */
  lemma CountByHeading(cs: seq<TurnCollision>, id: Option<int>)
    ensures Count(cs, id) == Counts(|Travelling(At(cs, id), "N")|, |Travelling(At(cs, id), "S")|,
                                    |Travelling(At(cs, id), "E")|, |Travelling(At(cs, id), "W")|,
                                    |NotStatedIn(At(cs, id))|)
  {
    var at := At(cs, id);
    CountOnlyAt(cs, id);
    AtMembership(cs, id);
    forall k | 0 <= k < |at| ensures at[k].intId == id {
      assert at[k] in at;
    }
    CountAllAt(at, id);
  }

  /** Each collision attached to the intersection raises exactly the counter of its heading by
      one, a NULL direction the not-stated counter. */
  lemma AppendAt(cs: seq<TurnCollision>, c: TurnCollision, id: Option<int>)
    requires c.intId == id
    ensures Count(cs + [c], id) == Bump(Count(cs, id), HeadingOf(c.dir))
    ensures c.dir == None ==> Count(cs + [c], id).notStated == Count(cs, id).notStated + 1
  {
    assert AllButLast(cs + [c]) == cs;
  }

  lemma AppendElsewhere(cs: seq<TurnCollision>, c: TurnCollision, id: Option<int>)
    requires c.intId != id
    ensures Count(cs + [c], id) == Count(cs, id)
  {
    assert AllButLast(cs + [c]) == cs;
  }

  /** The inner loop over the collision table for one intersection. */
  method CountDirections(cs: seq<TurnCollision>, id: Option<int>) returns (counts: Counts)
    ensures counts == Count(cs, id)
  {
    var nCt: nat, sCt: nat, eCt: nat, wCt: nat, notStated: nat := 0, 0, 0, 0, 0;
    var i := 0;
    while i < |cs|
      invariant 0 <= i <= |cs|
      invariant Counts(nCt, sCt, eCt, wCt, notStated) == Count(cs[..i], id)
    {
      var row2 := cs[i];
      assert cs[..i + 1] == cs[..i] + [row2];
      ghost var before := Counts(nCt, sCt, eCt, wCt, notStated);
      if row2.intId == id {
        AppendAt(cs[..i], row2, id);
        if row2.dir == Some("N") {
          nCt := nCt + 1;
          assert HeadingOf(row2.dir) == North;
        } else if row2.dir == Some("S") {
          sCt := sCt + 1;
          assert HeadingOf(row2.dir) == South;
        } else if row2.dir == Some("E") {
          eCt := eCt + 1;
          assert HeadingOf(row2.dir) == East;
        } else if row2.dir == Some("W") {
          wCt := wCt + 1;
          assert HeadingOf(row2.dir) == West;
        } else {
          notStated := notStated + 1;
          assert HeadingOf(row2.dir) == NotStated;
        }
        assert Counts(nCt, sCt, eCt, wCt, notStated) == Bump(before, HeadingOf(row2.dir));
      } else {
        AppendElsewhere(cs[..i], row2, id);
      }
      i := i + 1;
    }
    assert cs[..i] == cs;
    counts := Counts(nCt, sCt, eCt, wCt, notStated);
  }

  /** The row an intersection gets: its ASSETID and the counts of the whole collision table. */
  function Updated(row: IntersectionRow, cs: seq<TurnCollision>): (r: IntersectionRow)
    ensures r.assetId == row.assetId
    ensures r.north == |Travelling(At(cs, row.assetId), "N")| && r.south == |Travelling(At(cs, row.assetId), "S")|
    ensures r.east == |Travelling(At(cs, row.assetId), "E")| && r.west == |Travelling(At(cs, row.assetId), "W")|
    ensures r.notStated == |NotStatedIn(At(cs, row.assetId))|
    ensures r.north + r.south + r.east + r.west + r.notStated == |At(cs, row.assetId)|
  {
    CountTotal(cs, row.assetId);
    CountByHeading(cs, row.assetId);
    var c := Count(cs, row.assetId);
    IntersectionRow(row.assetId, c.north, c.south, c.east, c.west, c.notStated)
  }

  /** The update cursor loop over the intersection table: every row's count fields are
      overwritten, its ASSETID kept, the same row is appended to the collision table, and the
      counter ends at the number of intersections. */
  method ProtectedLeftSearch(table: array<IntersectionRow>, cs: seq<TurnCollision>)
    returns (collisionTable: seq<IntersectionRow>, ct: nat)
    modifies table
    ensures ct == table.Length
    ensures forall i :: 0 <= i < table.Length ==> table[i] == Updated(old(table[i]), cs)
    ensures collisionTable == table[..]
  {
    collisionTable := [];
    ct := 0;
    var i := 0;
    while i < table.Length
      invariant 0 <= i <= table.Length
      invariant ct == i
      invariant forall j :: 0 <= j < i ==> table[j] == Updated(old(table[j]), cs)
      invariant forall j :: i <= j < table.Length ==> table[j] == old(table[j])
      invariant collisionTable == table[..i]
    {
      var row := table[i];
      var counts := CountDirections(cs, row.assetId);
      row := row.(north := counts.north, south := counts.south, east := counts.east,
                  west := counts.west, notStated := counts.notStated);
      collisionTable := collisionTable + [row];
      table[i] := row;
      ct := ct + 1;
      i := i + 1;
    }
    assert table[..i] == table[..];
  }
}
