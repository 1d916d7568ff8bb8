/** Model of SafetyBenefitEstimation/ArcPy_RoadDietCalc.py: reading the corridor tables,
    the direction list of a corridor, the party filter that classifies one collision, and
    the per-corridor counters of a road-diet benefit estimate. */
module RoadDiet {
  import opened Common
  import opened Switrs

  // ---------------------------------------------------------------------------
  // Text helpers: ''.join and str.split(',')
  // ---------------------------------------------------------------------------

  /** ''.join(pieces). */
  function Concat(pieces: seq<string>): string {
    if pieces == [] then [] else Concat(pieces[..|pieces| - 1]) + pieces[|pieces| - 1]
  }

  /** sep.join(pieces) for a non-empty list. */
  function JoinWith(pieces: seq<string>, sep: char): string
    requires |pieces| >= 1
  {
    if |pieces| == 1 then pieces[0] else pieces[0] + [sep] + JoinWith(pieces[1..], sep)
  }

  /** s.split(sep): the pieces between separators, always at least one. */
  function SplitOn(s: string, sep: char): (r: seq<string>)
    ensures |r| >= 1
  {
    if s == [] then [""]
    else if s[0] == sep then [""] + SplitOn(s[1..], sep)
    else
      var rest := SplitOn(s[1..], sep);
      [[s[0]] + rest[0]] + rest[1..]
  }

  /** No piece of a split holds the separator. */
  lemma {:induction false} SplitPiecesFree(s: string, sep: char)
    ensures forall k :: 0 <= k < |SplitOn(s, sep)| ==> sep !in SplitOn(s, sep)[k]
  {
    if s != [] {
      SplitPiecesFree(s[1..], sep);
    }
  }

  /** Joining the pieces of a split gives the string back. */
  lemma {:induction false} JoinSplit(s: string, sep: char)
    ensures JoinWith(SplitOn(s, sep), sep) == s
  {
    if s != [] {
      JoinSplit(s[1..], sep);
      if s[0] == sep {
        assert [sep] + s[1..] == s;
      } else {
        var rest := SplitOn(s[1..], sep);
        if |rest| == 1 {
          assert [s[0]] + s[1..] == s;
        } else {
          assert ([s[0]] + rest[0]) + [sep] + JoinWith(rest[1..], sep)
              == [s[0]] + (rest[0] + [sep] + JoinWith(rest[1..], sep));
          assert [s[0]] + s[1..] == s;
        }
      }
    }
  }

  lemma {:induction false} SplitPiece(x: string, y: string, sep: char)
    requires sep !in x
    ensures SplitOn(x + [sep] + y, sep) == [x] + SplitOn(y, sep)
    ensures SplitOn(x, sep) == [x]
  {
    if x != [] {
      SplitPiece(x[1..], y, sep);
      assert (x + [sep] + y)[1..] == x[1..] + [sep] + y;
      assert [x[0]] + x[1..] == x;
    } else {
      assert x + [sep] + y == [sep] + y;
    }
  }

  /** Splitting a join of separator-free pieces gives the pieces back. */
  lemma {:induction false} SplitJoin(pieces: seq<string>, sep: char)
    requires |pieces| >= 1
    requires forall k :: 0 <= k < |pieces| ==> sep !in pieces[k]
    ensures SplitOn(JoinWith(pieces, sep), sep) == pieces
  {
    if |pieces| == 1 {
      SplitPiece(pieces[0], [], sep);
    } else {
      SplitJoin(pieces[1..], sep);
      SplitPiece(pieces[0], JoinWith(pieces[1..], sep), sep);
      assert [pieces[0]] + pieces[1..] == pieces;
    }
  }

  // ---------------------------------------------------------------------------
  // csvTableToList: corridor tables grouped by corridor id (lines 19-43)
  // ---------------------------------------------------------------------------

  /** A row of the segment table: corridor id, segment id, direction. */
  datatype SegmentRow = SegmentRow(corridor: int, segId: string, direction: string)

  /** A row of the intersection table: corridor id, intersection id. */
  datatype CorridorIntersection = CorridorIntersection(corridor: int, intId: int)

  /** The segment ids of corridor c, in file order. */
  function SegmentsOf(rows: seq<SegmentRow>, c: int): seq<string> {
    if rows == [] then []
    else
      var last := rows[|rows| - 1];
      SegmentsOf(rows[..|rows| - 1], c) + if last.corridor == c then [last.segId] else []
  }

  /** The directions of corridor c, in file order. */
  function DirectionsOf(rows: seq<SegmentRow>, c: int): seq<string> {
    if rows == [] then []
    else
      var last := rows[|rows| - 1];
      DirectionsOf(rows[..|rows| - 1], c) + if last.corridor == c then [last.direction] else []
  }

  /** The intersection ids of corridor c, in file order. */
  function IntersectionsOf(rows: seq<CorridorIntersection>, c: int): seq<int> {
    if rows == [] then []
    else
      var last := rows[|rows| - 1];
      IntersectionsOf(rows[..|rows| - 1], c) + if last.corridor == c then [last.intId] else []
  }

  /** The grouping keeps file order: the lists of a table read in two parts are the lists
      of the parts, concatenated. */
  lemma {:induction false} GroupingAppend(a: seq<SegmentRow>, b: seq<SegmentRow>, c: int)
    ensures SegmentsOf(a + b, c) == SegmentsOf(a, c) + SegmentsOf(b, c)
    ensures DirectionsOf(a + b, c) == DirectionsOf(a, c) + DirectionsOf(b, c)
  {
    if b != [] {
      assert (a + b)[..|a + b| - 1] == a + b[..|b| - 1];
      GroupingAppend(a, b[..|b| - 1], c);
    } else {
      assert a + b == a;
    }
  }

  /** A corridor gets one segment id and one direction per row that names it, and only those. */
  lemma {:induction false} GroupingMembership(rows: seq<SegmentRow>, c: int, s: string)
    ensures |SegmentsOf(rows, c)| == |DirectionsOf(rows, c)|
    ensures s in SegmentsOf(rows, c) <==> exists i :: 0 <= i < |rows| && rows[i].corridor == c && rows[i].segId == s
  {
    if rows != [] {
      var front := rows[..|rows| - 1];
      GroupingMembership(front, c, s);
      if s in SegmentsOf(front, c) {
        var i :| 0 <= i < |front| && front[i].corridor == c && front[i].segId == s;
        assert rows[i] == front[i];
      }
      if exists i :: 0 <= i < |rows| && rows[i].corridor == c && rows[i].segId == s {
        var i :| 0 <= i < |rows| && rows[i].corridor == c && rows[i].segId == s;
        if i < |front| { assert front[i] == rows[i]; }
      }
    }
  }

  function CorridorsIn(rows: seq<SegmentRow>): set<int> {
    set i | 0 <= i < |rows| :: rows[i].corridor
  }

  function IntersectionCorridorsIn(rows: seq<CorridorIntersection>): set<int> {
    set i | 0 <= i < |rows| :: rows[i].corridor
  }

  /** A defaultdict(list) read: a missing key reads as the empty list. */
  function Lookup<T>(m: map<int, seq<T>>, k: int): seq<T> {
    if k in m then m[k] else []
  }

  /** Appending to one key's list leaves every other key's list as it was. */
  lemma LookupAppend<T>(m: map<int, seq<T>>, k: int, x: T, c: int)
    ensures Lookup(m[k := Lookup(m, k) + [x]], c) == Lookup(m, c) + if c == k then [x] else []
  {
  }

  /** The first reading loop of csvTableToList: segment ids and directions appended to the
      defaultdict lists of their corridor. */
  method ReadSegments(segRows: seq<SegmentRow>) returns (linking: map<int, seq<string>>, dirTable: map<int, seq<string>>)
    ensures linking.Keys == CorridorsIn(segRows) && dirTable.Keys == CorridorsIn(segRows)
    ensures forall c :: c in linking ==> linking[c] == SegmentsOf(segRows, c) && dirTable[c] == DirectionsOf(segRows, c)
  {
    linking, dirTable := map[], map[];
    var i := 0;
    while i < |segRows|
      invariant 0 <= i <= |segRows|
      invariant linking.Keys == CorridorsIn(segRows[..i]) && dirTable.Keys == linking.Keys
      invariant forall c :: Lookup(linking, c) == SegmentsOf(segRows[..i], c)
      invariant forall c :: Lookup(dirTable, c) == DirectionsOf(segRows[..i], c)
    {
      var row := segRows[i];
      ghost var linking0, dirTable0 := linking, dirTable;
      linking := linking[row.corridor := Lookup(linking, row.corridor) + [row.segId]];
      dirTable := dirTable[row.corridor := Lookup(dirTable, row.corridor) + [row.direction]];
      SegmentKeysStep(segRows, i);
      forall c ensures Lookup(linking, c) == SegmentsOf(segRows[..i + 1], c)
                    && Lookup(dirTable, c) == DirectionsOf(segRows[..i + 1], c) {
        SegmentsStep(segRows, i, c);
        LookupAppend(linking0, row.corridor, row.segId, c);
        LookupAppend(dirTable0, row.corridor, row.direction, c);
      }
      i := i + 1;
    }
    assert segRows[..i] == segRows;
  }

  lemma SegmentKeysStep(rows: seq<SegmentRow>, i: nat)
    requires i < |rows|
    ensures CorridorsIn(rows[..i + 1]) == CorridorsIn(rows[..i]) + {rows[i].corridor}
  {
    assert forall j :: 0 <= j < i ==> rows[..i + 1][j] == rows[..i][j];
    assert rows[..i + 1][i] == rows[i];
  }

  lemma SegmentsStep(rows: seq<SegmentRow>, i: nat, c: int)
    requires i < |rows|
    ensures SegmentsOf(rows[..i + 1], c) == SegmentsOf(rows[..i], c) + if rows[i].corridor == c then [rows[i].segId] else []
    ensures DirectionsOf(rows[..i + 1], c) == DirectionsOf(rows[..i], c) + if rows[i].corridor == c then [rows[i].direction] else []
  {
    assert rows[..i + 1][..i] == rows[..i];
  }

  /** The second reading loop: intersection ids appended to the list of their corridor. */
  method ReadIntersections(intRows: seq<CorridorIntersection>) returns (intTable: map<int, seq<int>>)
    ensures intTable.Keys == IntersectionCorridorsIn(intRows)
    ensures forall c :: c in intTable ==> intTable[c] == IntersectionsOf(intRows, c)
  {
    intTable := map[];
    var i := 0;
    while i < |intRows|
      invariant 0 <= i <= |intRows|
      invariant intTable.Keys == IntersectionCorridorsIn(intRows[..i])
      invariant forall c :: Lookup(intTable, c) == IntersectionsOf(intRows[..i], c)
    {
      var row := intRows[i];
      ghost var intTable0 := intTable;
      intTable := intTable[row.corridor := Lookup(intTable, row.corridor) + [row.intId]];
      IntersectionKeysStep(intRows, i);
      forall c ensures Lookup(intTable, c) == IntersectionsOf(intRows[..i + 1], c) {
        IntersectionsStep(intRows, i, c);
        LookupAppend(intTable0, row.corridor, row.intId, c);
      }
      i := i + 1;
    }
    assert intRows[..i] == intRows;
  }

  lemma IntersectionKeysStep(rows: seq<CorridorIntersection>, i: nat)
    requires i < |rows|
    ensures IntersectionCorridorsIn(rows[..i + 1]) == IntersectionCorridorsIn(rows[..i]) + {rows[i].corridor}
  {
    assert forall j :: 0 <= j < i ==> rows[..i + 1][j] == rows[..i][j];
    assert rows[..i + 1][i] == rows[i];
  }

  lemma IntersectionsStep(rows: seq<CorridorIntersection>, i: nat, c: int)
    requires i < |rows|
    ensures IntersectionsOf(rows[..i + 1], c) == IntersectionsOf(rows[..i], c) + if rows[i].corridor == c then [rows[i].intId] else []
  {
    assert rows[..i + 1][..i] == rows[..i];
  }

  // ---------------------------------------------------------------------------
  // The direction list of a corridor (lines 83-84)
  // ---------------------------------------------------------------------------

  predicate Distinct(s: seq<string>) {
    forall i, j :: 0 <= i < j < |s| ==> s[i] != s[j]
  }

  /** order lists the set of dirs, each element once, in some order (list(set(dirs))). */
  ghost predicate ListsSetOf(order: seq<string>, dirs: seq<string>) {
    Distinct(order) && forall x :: x in order <==> x in dirs
  }

  /** direction_f: the distinct directions of the corridor joined in set order and split
      at the commas. The set's order is the runtime's, so it is chosen here. */
  method DirectionList(dirs: seq<string>) returns (directions: seq<string>, ghost order: seq<string>)
    ensures ListsSetOf(order, dirs)
    ensures directions == SplitOn(Concat(order), ',')
  {
    var remaining := set d | d in dirs;
    var joined := "";
    order := [];
    while remaining != {}
      invariant Distinct(order) && joined == Concat(order)
      invariant forall x :: x in order ==> x in dirs && x !in remaining
      invariant forall x :: x in dirs ==> x in order || x in remaining
      invariant forall x :: x in remaining ==> x in dirs
      decreases |remaining|
    {
      var d :| d in remaining;
      joined := joined + d;
      assert (order + [d])[..|order|] == order;
      order := order + [d];
      remaining := remaining - {d};
    }
    directions := SplitOn(joined, ',');
  }

  /** A list of distinct strings has as many elements as its set. */
  lemma {:induction false} DistinctCard(s: seq<string>)
    requires Distinct(s)
    ensures |set x | x in s| == |s|
  {
    if s != [] {
      var init := s[..|s| - 1];
      DistinctCard(init);
      assert (set x | x in s) == (set x | x in init) + {s[|s| - 1]};
      assert s[|s| - 1] !in (set x | x in init);
    }
  }

  /** When every segment of a corridor carries the same direction entry (such as "N,S"),
      direction_f is that entry split at its commas, whatever the set order. */
  lemma DirectionListOfOneEntry(dirs: seq<string>, order: seq<string>)
    requires |dirs| >= 1 && forall i :: 0 <= i < |dirs| ==> dirs[i] == dirs[0]
    requires ListsSetOf(order, dirs)
    ensures SplitOn(Concat(order), ',') == SplitOn(dirs[0], ',')
  {
    assert (set x | x in order) == {dirs[0]};
    DistinctCard(order);
    assert order[0] in dirs;
    var i :| 0 <= i < |dirs| && dirs[i] == order[0];
    assert |order| == 1;
    assert order[..0] == [];
    assert Concat(order) == [] + order[0] == dirs[0];
  }

  // ---------------------------------------------------------------------------
  // PartyFilter (lines 158-263)
  // ---------------------------------------------------------------------------

  /** PCF_VIOL_CATEGORY codes a road diet is taken to address. */
  const PcfCategories: seq<string> := ["03", "06", "07", "09", "10", "11"]

  /** OAF_VIOL_SECTION of the speeding code (CVC 22350). */
  const Speeding: int := 22350

  /** PartyFilter's two-item result: the collision code (0, 3 or 4) and whether any party
      was cited under the speeding section. */
  datatype FilterResult = FilterResult(code: int, oaf22350: bool)

  /** A driver travelling in one of the corridor's directions, or any pedestrian or bicyclist. */
  predicate Keeps(p: Party, corridor: seq<string>) {
    || (p.partyType == 1 && p.dir.Some? && p.dir.value in corridor)
    || p.partyType == 2
    || p.partyType == 4
  }

  /** One more party: the kept list grows by it exactly when Keeps holds. */
  lemma KeptStep(ps: seq<Party>, i: nat, corridor: seq<string>)
    requires i < |ps|
    ensures Kept(ps[..i + 1], corridor) == Kept(ps[..i], corridor) + if Keeps(ps[i], corridor) then [ps[i]] else []
  {
    assert ps[..i + 1][..i] == ps[..i];
  }

  /** The parties PartyFilter keeps, in cursor order. */
  function Kept(ps: seq<Party>, corridor: seq<string>): (r: seq<Party>)
    ensures |r| <= |ps|
  {
    if ps == [] then []
    else Kept(ps[..|ps| - 1], corridor) + if Keeps(ps[|ps| - 1], corridor) then [ps[|ps| - 1]] else []
  }

  /** A party is kept exactly when it is one of the collision's parties and passes Keeps. */
  lemma {:induction false} KeptMembership(ps: seq<Party>, corridor: seq<string>, p: Party)
    ensures p in Kept(ps, corridor) <==> p in ps && Keeps(p, corridor)
  {
    if ps != [] {
      KeptMembership(ps[..|ps| - 1], corridor, p);
      assert ps == ps[..|ps| - 1] + [ps[|ps| - 1]];
    }
  }

  /** party_traveldir_list and mvmt_pre_acc_list: the directions and movements of the kept parties. */
  function Directions(kept: seq<Party>): (r: seq<Option<string>>)
    ensures |r| == |kept|
  {
    seq(|kept|, i requires 0 <= i < |kept| => kept[i].dir)
  }

  function Movements(kept: seq<Party>): (r: seq<Option<string>>)
    ensures |r| == |kept|
  {
    seq(|kept|, i requires 0 <= i < |kept| => kept[i].movement)
  }

  lemma ListsAppend(kept: seq<Party>, p: Party)
    ensures Directions(kept + [p]) == Directions(kept) + [p.dir]
    ensures Movements(kept + [p]) == Movements(kept) + [p.movement]
  {
    assert forall i :: 0 <= i < |kept| ==> (kept + [p])[i] == kept[i];
  }

  /** Directions that face each other: N and S, E and W. */
  predicate Opposite(a: Option<string>, b: Option<string>) {
    || (a == Some("N") && b == Some("S")) || (a == Some("S") && b == Some("N"))
    || (a == Some("E") && b == Some("W")) || (a == Some("W") && b == Some("E"))
  }

  predicate InPcfCategory(pcf: Option<string>) {
    pcf.Some? && pcf.value in PcfCategories
  }

  /** The opposition test as the script spells it out, one direction at a time. */
  lemma OpposedCases(leftDir: Option<string>, dirs: seq<Option<string>>)
    ensures (exists d :: d in dirs && Opposite(leftDir, d)) <==>
            || (leftDir == Some("N") && Some("S") in dirs)
            || (leftDir == Some("S") && Some("N") in dirs)
            || (leftDir == Some("E") && Some("W") in dirs)
            || (leftDir == Some("W") && Some("E") in dirs)
  {
    if exists d :: d in dirs && Opposite(leftDir, d) {
      var d :| d in dirs && Opposite(leftDir, d);
    }
  }

  /** The code of a collision with two or more kept parties, no alcohol and a PCF in the
      categories: 4 when the first left-turner's direction is opposed by a kept direction,
      0 when the left turn is not opposed, 3 when nobody turned left. */
  function LeftTurnCode(kept: seq<Party>): (code: int)
    ensures code == 0 || code == 3 || code == 4
    ensures code == 3 <==> Some("E") !in Movements(kept)
  {
    if Some("E") in Movements(kept) then
      var leftDir := Directions(kept)[IndexOf(Movements(kept), Some("E"))];
      if exists d :: d in Directions(kept) && Opposite(leftDir, d) then 4 else 0
    else 3
  }

  /** The collision code PartyFilter computes from the kept parties. */
  function Code(kept: seq<Party>, alcohol: Option<string>, pcf: Option<string>): (code: int)
    ensures code == 0 || code == 3 || code == 4
  {
    if |kept| >= 2 && alcohol != Some("Y") && InPcfCategory(pcf) then LeftTurnCode(kept) else 0
  }

  /** What PartyFilter returns for a collision with the given parties: None when it keeps no
      party, otherwise the code and the speeding flag. */
  function PartyFilterSpec(ps: seq<Party>, corridor: seq<string>, alcohol: Option<string>, pcf: Option<string>)
    : Option<FilterResult>
  {
    var kept := Kept(ps, corridor);
    if |kept| < 1 then None
    else Some(FilterResult(Code(kept, alcohol, pcf), exists i :: 0 <= i < |ps| && ps[i].oafSection == Some(Speeding)))
  }

  /** The party loop builds the direction and movement lists of the kept parties and the
      flags; the decision after it computes the code. */
  method PartyFilter(parties: seq<Party>, corridor: seq<string>, alcohol: Option<string>, pcf: Option<string>)
    returns (r: Option<FilterResult>)
    ensures r == PartyFilterSpec(parties, corridor, alcohol, pcf)
  {
    var travelDirs: seq<Option<string>> := [];
    var movements: seq<Option<string>> := [];
    var otherOnCorridor := false;
    var oaf22350 := false;
    var code := 0;
    var i := 0;
    while i < |parties|
      invariant 0 <= i <= |parties|
      invariant travelDirs == Directions(Kept(parties[..i], corridor))
      invariant movements == Movements(Kept(parties[..i], corridor))
      invariant oaf22350 <==> exists j :: 0 <= j < i && parties[j].oafSection == Some(Speeding)
    {
      var party := parties[i];
      assert parties[..i + 1][..i] == parties[..i];
      KeptStep(parties, i, corridor);
      ListsAppend(Kept(parties[..i], corridor), party);
      if party.oafSection.Some? && party.oafSection.value == Speeding {
        oaf22350 := true;
      }
      if party.partyType == 1 {
        if party.dir.Some? && party.dir.value in corridor {
          travelDirs := travelDirs + [party.dir];
          movements := movements + [party.movement];
          otherOnCorridor := true;
        }
      } else if party.partyType == 2 {
        travelDirs := travelDirs + [party.dir];
        movements := movements + [party.movement];
      } else if party.partyType == 4 {
        travelDirs := travelDirs + [party.dir];
        movements := movements + [party.movement];
      }
      i := i + 1;
    }
    assert parties[..i] == parties;
    ghost var kept := Kept(parties, corridor);

    if |travelDirs| >= 2 {
      if alcohol == Some("Y") {
        code := 0;
      } else if pcf.Some? && pcf.value in PcfCategories {
        if Some("E") in movements {
          var leftTurnIndex := IndexOf(movements, Some("E"));
          var leftDir := travelDirs[leftTurnIndex];
          OpposedCases(leftDir, travelDirs);
          if leftDir == Some("N") {
            if Some("S") in travelDirs { code := 4; }
          } else if leftDir == Some("S") {
            if Some("N") in travelDirs { code := 4; }
          } else if leftDir == Some("E") {
            if Some("W") in travelDirs { code := 4; }
          } else if leftDir == Some("W") {
            if Some("E") in travelDirs { code := 4; }
          }
          assert code == LeftTurnCode(kept);
        } else {
          code := 3;
        }
      } else {
        code := 0;
      }
    } else if otherOnCorridor {
      code := 0;
    }

    if |travelDirs| < 1 {
      return None;
    }
    r := Some(FilterResult(code, oaf22350));
  }

  /** PartyFilter returns None exactly when no party is kept. */
  lemma FilterNoneIff(ps: seq<Party>, corridor: seq<string>, alcohol: Option<string>, pcf: Option<string>)
    ensures PartyFilterSpec(ps, corridor, alcohol, pcf).None? <==>
            forall i :: 0 <= i < |ps| ==> !Keeps(ps[i], corridor)
  {
    var kept := Kept(ps, corridor);
    if |kept| > 0 {
      KeptMembership(ps, corridor, kept[0]);
    } else {
      forall i | 0 <= i < |ps| ensures !Keeps(ps[i], corridor) {
        KeptMembership(ps, corridor, ps[i]);
      }
    }
  }

  /** Code 3 exactly when two or more parties are kept, alcohol is not involved, the PCF is in
      the categories and no kept party was making a left turn. */
  lemma CodeThreeIff(ps: seq<Party>, corridor: seq<string>, alcohol: Option<string>, pcf: Option<string>)
    ensures Code(Kept(ps, corridor), alcohol, pcf) == 3 <==>
            |Kept(ps, corridor)| >= 2 && alcohol != Some("Y") && InPcfCategory(pcf) &&
            forall i :: 0 <= i < |ps| && Keeps(ps[i], corridor) ==> ps[i].movement != Some("E")
  {
    var kept := Kept(ps, corridor);
    if Some("E") in Movements(kept) {
      var k :| 0 <= k < |kept| && Movements(kept)[k] == Some("E");
      KeptMembership(ps, corridor, kept[k]);
      var i :| 0 <= i < |ps| && ps[i] == kept[k];
    } else {
      forall i | 0 <= i < |ps| && Keeps(ps[i], corridor) ensures ps[i].movement != Some("E") {
        KeptMembership(ps, corridor, ps[i]);
        var k :| 0 <= k < |kept| && kept[k] == ps[i];
        assert Movements(kept)[k] == ps[i].movement;
      }
    }
  }

  /** Index k is the first kept party making a left turn. */
  predicate FirstLeftTurn(kept: seq<Party>, k: int) {
    0 <= k < |kept| && kept[k].movement == Some("E") &&
    forall j :: 0 <= j < k ==> kept[j].movement != Some("E")
  }

  /** Code 4 exactly when two or more parties are kept, alcohol is not involved, the PCF is in
      the categories, and the first kept left-turner's direction is opposed by the direction of
      a kept party. */
  lemma CodeFourIff(ps: seq<Party>, corridor: seq<string>, alcohol: Option<string>, pcf: Option<string>)
    ensures var kept := Kept(ps, corridor);
            Code(kept, alcohol, pcf) == 4 <==>
            |kept| >= 2 && alcohol != Some("Y") && InPcfCategory(pcf) &&
            exists k :: FirstLeftTurn(kept, k) &&
                        exists j :: 0 <= j < |kept| && Opposite(kept[k].dir, kept[j].dir)
  {
    var kept := Kept(ps, corridor);
    var movements, dirs := Movements(kept), Directions(kept);
    if Some("E") in movements {
      var k := IndexOf(movements, Some("E"));
      assert FirstLeftTurn(kept, k) by {
        forall j | 0 <= j < k ensures kept[j].movement != Some("E") { assert movements[j] == kept[j].movement; }
      }
      assert (exists d :: d in dirs && Opposite(dirs[k], d)) <==>
             exists j :: 0 <= j < |kept| && Opposite(kept[k].dir, kept[j].dir) by {
        if exists d :: d in dirs && Opposite(dirs[k], d) {
          var d :| d in dirs && Opposite(dirs[k], d);
          var j :| 0 <= j < |kept| && dirs[j] == d;
        }
        if exists j :: 0 <= j < |kept| && Opposite(kept[k].dir, kept[j].dir) {
          var j :| 0 <= j < |kept| && Opposite(kept[k].dir, kept[j].dir);
          assert dirs[j] == kept[j].dir;
        }
      }
      assert kept[k].movement == Some("E") by { assert movements[k] == kept[k].movement; }
      forall k' | FirstLeftTurn(kept, k') ensures k' == k {
        assert movements[k'] == Some("E");
      }
    } else {
      forall k | 0 <= k < |kept| ensures !FirstLeftTurn(kept, k) {
        assert movements[k] == kept[k].movement;
      }
    }
  }

  // ---------------------------------------------------------------------------
  // SegmentQuery (lines 50-155)
  // ---------------------------------------------------------------------------

  /** The where clause: on one of the corridor's segments, or at one of its intersections
      at distance 0. A NULL field matches nothing. */
  predicate OnCorridor(c: Collision, segs: seq<string>, ints: seq<int>) {
    || (c.segId.Some? && c.segId.value in segs)
    || (c.intId.Some? && c.intId.value in ints && c.distance == Some(0.0))
  }

  /** The rows the collision cursor yields for a corridor, in table order. */
  function CorridorCollisions(table: seq<Collision>, segs: seq<string>, ints: seq<int>): seq<Collision> {
    if table == [] then []
    else
      var last := table[|table| - 1];
      CorridorCollisions(table[..|table| - 1], segs, ints) + if OnCorridor(last, segs, ints) then [last] else []
  }

  /** The cursor yields exactly the rows the where clause matches. */
  lemma {:induction false} CorridorCollisionsMembership(table: seq<Collision>, segs: seq<string>, ints: seq<int>, c: Collision)
    ensures c in CorridorCollisions(table, segs, ints) <==> c in table && OnCorridor(c, segs, ints)
  {
    if table != [] {
      CorridorCollisionsMembership(table[..|table| - 1], segs, ints, c);
      assert table == table[..|table| - 1] + [table[|table| - 1]];
    }
  }

  /** The seven exclusive counters a classified collision falls into. */
  datatype Category = Pedestrian | Bicycle | Sideswipe | LeftTurn | RearEnd | OtherTarget | NotTargeted

  /** The counter SegmentQuery increments for a collision, None when PartyFilter discards it.
      For codes 3 and 4 the tests are tried in the script's order; code 0 is NotTargeted. */
  function CategoryOf(c: Collision, corridor: seq<string>): (cat: Option<Category>)
    ensures var r := PartyFilterSpec(c.parties, corridor, c.alcohol, c.pcf);
            && (cat.None? <==> r.None?)
            && (cat == Some(NotTargeted) <==> r.Some? && r.value.code == 0)
            && (cat.Some? && cat != Some(NotTargeted) && c.pedestrian == Some("Y") ==> cat == Some(Pedestrian))
            && (cat == Some(Bicycle) ==> c.pedestrian != Some("Y") && c.bicycle == Some("Y"))
            && (cat == Some(Sideswipe) ==> c.pedestrian != Some("Y") && c.bicycle != Some("Y") && c.collisionType == Some("B"))
            && (cat == Some(LeftTurn) <==>
                  (r.Some? && r.value.code == 4 && c.pedestrian != Some("Y") &&
                   c.bicycle != Some("Y") && c.collisionType != Some("B")))
            && (cat == Some(RearEnd) <==>
                  (r.Some? && r.value.code == 3 && c.pedestrian != Some("Y") &&
                   c.bicycle != Some("Y") && c.collisionType == Some("C")))
  {
    match PartyFilterSpec(c.parties, corridor, c.alcohol, c.pcf)
    case None => None
    case Some(r) =>
      if r.code >= 1 then
        if c.pedestrian == Some("Y") then Some(Pedestrian)
        else if c.bicycle == Some("Y") then Some(Bicycle)
        else if c.collisionType == Some("B") then Some(Sideswipe)
        else if r.code == 4 then Some(LeftTurn)
        else if c.collisionType == Some("C") then Some(RearEnd)
        else Some(OtherTarget)
      else Some(NotTargeted)
  }

  /** What a counter counts: one category, every collision PartyFilter keeps, or one of the
      two speeding counts (primary: PCF "03"; secondary: another PCF and a party cited under
      the speeding section). */
  datatype Counter = InCategory(cat: Category) | Classified | PrimarySpeeding | SecondarySpeeding

  predicate CountedBy(c: Collision, corridor: seq<string>, k: Counter) {
    var r := PartyFilterSpec(c.parties, corridor, c.alcohol, c.pcf);
    match k
    case InCategory(cat) => CategoryOf(c, corridor) == Some(cat)
    case Classified => r.Some?
    case PrimarySpeeding => r.Some? && c.pcf == Some("03")
    case SecondarySpeeding => r.Some? && c.pcf != Some("03") && r.value.oaf22350
  }

  /** The number of collisions in cs that counter k counts. */
  function Count(cs: seq<Collision>, corridor: seq<string>, k: Counter): nat {
    if cs == [] then 0
    else Count(cs[..|cs| - 1], corridor, k) + if CountedBy(cs[|cs| - 1], corridor, k) then 1 else 0
  }

  /** An entry of a corridor's linking list: the segment ids read from the table, to which
      SegmentQuery appends the CASE_IDs of qualifying collisions. */
  datatype LinkEntry = SegmentEntry(segId: string) | CaseEntry(caseId: int)

  function SegmentEntries(segs: seq<string>): (r: seq<LinkEntry>)
    ensures |r| == |segs|
  {
    seq(|segs|, i requires 0 <= i < |segs| => SegmentEntry(segs[i]))
  }

  /** The CASE_IDs of the collisions a road diet targets (code 3 or 4), in cursor order. */
  function QualifyingEntries(cs: seq<Collision>, corridor: seq<string>): seq<LinkEntry> {
    if cs == [] then []
    else
      var c := cs[|cs| - 1];
      var r := PartyFilterSpec(c.parties, corridor, c.alcohol, c.pcf);
      QualifyingEntries(cs[..|cs| - 1], corridor) + if r.Some? && r.value.code >= 1 then [CaseEntry(c.caseId)] else []
  }

  /** The counters SegmentQuery reports for one corridor. */
  datatype Tally = Tally(
    pedestrian: nat, bicycle: nat, sideswipe: nat, rearEnd: nat, leftTurn: nat,
    otherTarget: nat, notTargeted: nat, total: nat, primary22350: nat, secondary22350: nat)

  /** Every counter over the corridor's collisions; total_col is the number PartyFilter keeps. */
  function TallyOf(cs: seq<Collision>, corridor: seq<string>): Tally {
    Tally(
      Count(cs, corridor, InCategory(Pedestrian)), Count(cs, corridor, InCategory(Bicycle)),
      Count(cs, corridor, InCategory(Sideswipe)), Count(cs, corridor, InCategory(RearEnd)),
      Count(cs, corridor, InCategory(LeftTurn)), Count(cs, corridor, InCategory(OtherTarget)),
      Count(cs, corridor, InCategory(NotTargeted)), Count(cs, corridor, Classified),
      Count(cs, corridor, PrimarySpeeding), Count(cs, corridor, SecondarySpeeding))
  }

  function CategorySum(cs: seq<Collision>, corridor: seq<string>): nat {
    Count(cs, corridor, InCategory(Pedestrian)) + Count(cs, corridor, InCategory(Bicycle)) +
    Count(cs, corridor, InCategory(Sideswipe)) + Count(cs, corridor, InCategory(RearEnd)) +
    Count(cs, corridor, InCategory(LeftTurn)) + Count(cs, corridor, InCategory(OtherTarget)) +
    Count(cs, corridor, InCategory(NotTargeted))
  }

  /** The seven counters are exclusive and cover every collision PartyFilter keeps. */
  lemma {:induction false} CategoriesPartition(cs: seq<Collision>, corridor: seq<string>)
    ensures CategorySum(cs, corridor) == Count(cs, corridor, Classified)
  {
    if cs != [] {
      CategoriesPartition(cs[..|cs| - 1], corridor);
    }
  }

  /** A collision is counted as primary or as secondary speeding, never both, and only when
      PartyFilter keeps it. */
  lemma {:induction false} SpeedingCountsBounded(cs: seq<Collision>, corridor: seq<string>)
    ensures Count(cs, corridor, PrimarySpeeding) + Count(cs, corridor, SecondarySpeeding) <= Count(cs, corridor, Classified)
  {
    if cs != [] {
      SpeedingCountsBounded(cs[..|cs| - 1], corridor);
    }
  }

  /** The linking list receives one CASE_ID per kept collision outside NotTargeted. */
  lemma {:induction false} QualifyingEntriesCount(cs: seq<Collision>, corridor: seq<string>)
    ensures |QualifyingEntries(cs, corridor)| + Count(cs, corridor, InCategory(NotTargeted)) == Count(cs, corridor, Classified)
  {
    if cs != [] {
      QualifyingEntriesCount(cs[..|cs| - 1], corridor);
    }
  }

  /** The collision loop of SegmentQuery for one corridor: the counters, their sum total_col,
      and the CASE_IDs appended to the corridor's linking list. */
  method CorridorTally(cs: seq<Collision>, corridor: seq<string>, entries: seq<LinkEntry>)
    returns (t: Tally, linked: seq<LinkEntry>)
    ensures t == TallyOf(cs, corridor)
    ensures linked == entries + QualifyingEntries(cs, corridor)
  {
    var ped, bike, sideswipe, rearEnd, leftTurn, other, nonRd := 0, 0, 0, 0, 0, 0, 0;
    var primary, secondary := 0, 0;
    linked := entries;
    var i := 0;
    while i < |cs|
      invariant 0 <= i <= |cs|
      invariant ped == Count(cs[..i], corridor, InCategory(Pedestrian))
      invariant bike == Count(cs[..i], corridor, InCategory(Bicycle))
      invariant sideswipe == Count(cs[..i], corridor, InCategory(Sideswipe))
      invariant rearEnd == Count(cs[..i], corridor, InCategory(RearEnd))
      invariant leftTurn == Count(cs[..i], corridor, InCategory(LeftTurn))
      invariant other == Count(cs[..i], corridor, InCategory(OtherTarget))
      invariant nonRd == Count(cs[..i], corridor, InCategory(NotTargeted))
      invariant primary == Count(cs[..i], corridor, PrimarySpeeding)
      invariant secondary == Count(cs[..i], corridor, SecondarySpeeding)
      invariant linked == entries + QualifyingEntries(cs[..i], corridor)
    {
      var collision := cs[i];
      assert cs[..i + 1][..i] == cs[..i];
      var colCat := PartyFilter(collision.parties, corridor, collision.alcohol, collision.pcf);
      if colCat.Some? {
        if colCat.value.code >= 1 {
          linked := linked + [CaseEntry(collision.caseId)];
          if collision.pedestrian == Some("Y") {
            ped := ped + 1;
          } else if collision.bicycle == Some("Y") {
            bike := bike + 1;
          } else if collision.collisionType == Some("B") {
            sideswipe := sideswipe + 1;
          } else if colCat.value.code == 4 {
            leftTurn := leftTurn + 1;
          } else if collision.collisionType == Some("C") {
            rearEnd := rearEnd + 1;
          } else {
            other := other + 1;
          }
        } else if colCat.value.code == 0 {
          nonRd := nonRd + 1;
        }
        if collision.pcf == Some("03") {
          primary := primary + 1;
        } else if colCat.value.oaf22350 {
          secondary := secondary + 1;
        }
      }
      i := i + 1;
    }
    assert cs[..i] == cs;
    CategoriesPartition(cs, corridor);
    var total := ped + bike + sideswipe + rearEnd + leftTurn + other + nonRd;
    t := Tally(ped, bike, sideswipe, rearEnd, leftTurn, other, nonRd, total, primary, secondary);
  }

  /** What SegmentQuery produces for one corridor, given its segment ids, its directions
      and its intersections: for some set order of the directions, the linking list extended
      with the qualifying CASE_IDs and the counters over the collisions the query selects. */
  ghost predicate CorridorOutcome(segs: seq<string>, dirs: seq<string>, ints: seq<int>, table: seq<Collision>,
                            linked: seq<LinkEntry>, t: Tally)
  {
    exists order :: ListsSetOf(order, dirs) &&
      var cs := CorridorCollisions(table, segs, ints);
      var directions := SplitOn(Concat(order), ',');
      linked == SegmentEntries(segs) + QualifyingEntries(cs, directions) && t == TallyOf(cs, directions)
  }

  /** The corridor loop of SegmentQuery, in the dictionary's order. The linking lists it
      extends in place are returned as a new map, together with the counters. */
  method SegmentQuery(linking: map<int, seq<string>>, dirTable: map<int, seq<string>>,
                      intTable: map<int, seq<int>>, table: seq<Collision>)
    returns (linked: map<int, seq<LinkEntry>>, tallies: map<int, Tally>)
    ensures linked.Keys == linking.Keys && tallies.Keys == linking.Keys
    ensures forall c :: c in linking ==>
              CorridorOutcome(linking[c], Lookup(dirTable, c), Lookup(intTable, c), table, linked[c], tallies[c])
  {
    var todo := linking.Keys;
    linked, tallies := map[], map[];
    while todo != {}
      invariant todo <= linking.Keys
      invariant linked.Keys == linking.Keys - todo && tallies.Keys == linked.Keys
      invariant forall c :: c in linked ==>
                  CorridorOutcome(linking[c], Lookup(dirTable, c), Lookup(intTable, c), table, linked[c], tallies[c])
      decreases |todo|
    {
      EmptyOrHasElement(todo);
      var segment :| segment in todo;
      var directions, order := DirectionList(Lookup(dirTable, segment));
      var collisions := CorridorCollisions(table, linking[segment], Lookup(intTable, segment));
      var t, entries := CorridorTally(collisions, directions, SegmentEntries(linking[segment]));
      assert CorridorOutcome(linking[segment], Lookup(dirTable, segment), Lookup(intTable, segment), table, entries, t);
      linked := linked[segment := entries];
      tallies := tallies[segment := t];
      todo := todo - {segment};
    }
  }

  /** A corridor no row names has no intersections. */
  lemma {:induction false} LookupMissing(rows: seq<CorridorIntersection>, c: int)
    requires forall i :: 0 <= i < |rows| ==> rows[i].corridor != c
    ensures IntersectionsOf(rows, c) == []
  {
    if rows != [] {
      var front := rows[..|rows| - 1];
      assert forall i :: 0 <= i < |front| ==> front[i] == rows[i];
      LookupMissing(front, c);
    }
  }

  /** csvTableToList: read the two tables, then run SegmentQuery on them. */
  method CsvTableToList(segRows: seq<SegmentRow>, intRows: seq<CorridorIntersection>, table: seq<Collision>)
    returns (linked: map<int, seq<LinkEntry>>, tallies: map<int, Tally>)
    ensures linked.Keys == CorridorsIn(segRows) && tallies.Keys == CorridorsIn(segRows)
    ensures forall c :: c in linked ==>
              CorridorOutcome(SegmentsOf(segRows, c), DirectionsOf(segRows, c), IntersectionsOf(intRows, c),
                              table, linked[c], tallies[c])
  {
    var linking, dirTable := ReadSegments(segRows);
    var intTable := ReadIntersections(intRows);
    linked, tallies := SegmentQuery(linking, dirTable, intTable, table);
    forall c | c in linked
      ensures Lookup(intTable, c) == IntersectionsOf(intRows, c)
    {
      if c !in intTable {
        forall i | 0 <= i < |intRows| ensures intRows[i].corridor != c {
          assert intRows[i].corridor in IntersectionCorridorsIn(intRows);
        }
        LookupMissing(intRows, c);
      }
    }
  }
}
