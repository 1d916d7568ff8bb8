/** Model of NewSignals/SigWarrantSearch.py: the party filter for signal-correctable
    collisions, the per-intersection collection of qualifying collisions, and CountByYear's
    one-year window test for unsignalised intersections. */
module SignalWarrant {
  import opened Common
  import opened Switrs

  // ---------------------------------------------------------------------------
  // PartyFilter (lines 76-101)
  // ---------------------------------------------------------------------------

  /** MOVE_PRE_ACC codes whose parties are dropped: stopped, ran off road, parking manoeuvre,
      crossed into opposing lane, parked, travelling wrong way. */
  const ExcludedMovements: seq<string> := ["A", "C", "K", "N", "O", "Q"]

  /** A party whose movement is not excluded; a NULL movement is not excluded. */
  predicate Remains(p: Party) {
    !(p.movement.Some? && p.movement.value in ExcludedMovements)
  }

  /** filtered_party_list: the directions of the remaining parties, in cursor order. */
  function RemainingDirections(ps: seq<Party>): (r: seq<Option<string>>)
    ensures |r| <= |ps|
  {
    if ps == [] then []
    else RemainingDirections(ps[..|ps| - 1]) + if Remains(ps[|ps| - 1]) then [ps[|ps| - 1].dir] else []
  }

  predicate NorthSouth(d: Option<string>) { d == Some("N") || d == Some("S") }

  predicate EastWest(d: Option<string>) { d == Some("E") || d == Some("W") }

  /** Two directions on crossing axes. */
  predicate Perpendicular(a: Option<string>, b: Option<string>) {
    (NorthSouth(a) && EastWest(b)) || (EastWest(a) && NorthSouth(b))
  }

  /** The collision is one a signal could correct: at least two parties remain and the first
      two travel on crossing axes. */
  predicate Accepts(ps: seq<Party>) {
    var f := RemainingDirections(ps);
    |f| >= 2 && Perpendicular(f[0], f[1])
  }

  /** The party loop and the direction test; the script's True is true, its None false. */
  method PartyFilter(parties: seq<Party>) returns (accepted: bool)
    ensures accepted == Accepts(parties)
  {
    var filtered: seq<Option<string>> := [];
    var i := 0;
    while i < |parties|
      invariant 0 <= i <= |parties|
      invariant filtered == RemainingDirections(parties[..i])
    {
      assert parties[..i + 1][..i] == parties[..i];
      var party := parties[i];
      if !(party.movement.Some? && party.movement.value in ExcludedMovements) {
        filtered := filtered + [party.dir];
      }
      i := i + 1;
    }
    assert parties[..i] == parties;
    accepted := false;
    if |filtered| >= 2 {
      if filtered[0] == Some("N") || filtered[0] == Some("S") {
        if filtered[1] == Some("E") || filtered[1] == Some("W") {
          accepted := true;
        }
      } else if filtered[0] == Some("E") || filtered[0] == Some("W") {
        if filtered[1] == Some("N") || filtered[1] == Some("S") {
          accepted := true;
        }
      }
    }
  }

  /** The filter keeps order: filtering two runs of parties gives the two filtered runs. */
  lemma {:induction false} RemainingAppend(a: seq<Party>, b: seq<Party>)
    ensures RemainingDirections(a + b) == RemainingDirections(a) + RemainingDirections(b)
  {
    if b != [] {
      assert (a + b)[..|a + b| - 1] == a + b[..|b| - 1];
      RemainingAppend(a, b[..|b| - 1]);
    } else {
      assert a + b == a;
    }
  }

  /** A direction is kept exactly when some remaining party travels in it. */
  lemma {:induction false} RemainingMembership(ps: seq<Party>, d: Option<string>)
    ensures d in RemainingDirections(ps) <==> exists i :: 0 <= i < |ps| && Remains(ps[i]) && ps[i].dir == d
  {
    if ps != [] {
      var front := ps[..|ps| - 1];
      RemainingMembership(front, d);
      if d in RemainingDirections(front) {
        var i :| 0 <= i < |front| && Remains(front[i]) && front[i].dir == d;
        assert ps[i] == front[i];
      }
      if exists i :: 0 <= i < |ps| && Remains(ps[i]) && ps[i].dir == d {
        var i :| 0 <= i < |ps| && Remains(ps[i]) && ps[i].dir == d;
        if i < |front| { assert front[i] == ps[i]; }
      }
    }
  }

  /** Only the first two remaining parties matter: once two remain, further parties do not
      change the verdict. */
  lemma LaterPartiesIgnored(ps: seq<Party>, more: seq<Party>)
    requires |RemainingDirections(ps)| >= 2
    ensures Accepts(ps + more) == Accepts(ps)
  {
    RemainingAppend(ps, more);
    var f := RemainingDirections(ps);
    assert (f + RemainingDirections(more))[0] == f[0] && (f + RemainingDirections(more))[1] == f[1];
  }

  /** The test is symmetric: swapping the first two parties, when both remain, gives the same verdict. */
  lemma SwapFirstTwo(p: Party, q: Party, rest: seq<Party>)
    requires Remains(p) && Remains(q)
    ensures Accepts([p, q] + rest) == Accepts([q, p] + rest)
  {
    RemainingAppend([p, q], rest);
    RemainingAppend([q, p], rest);
    assert [p, q][..1] == [p] && [q, p][..1] == [q];
    assert [p][..0] == [] && [q][..0] == [];
    assert RemainingDirections([p, q]) == [p.dir, q.dir];
    assert RemainingDirections([q, p]) == [q.dir, p.dir];
  }

  // ---------------------------------------------------------------------------
  // SignalWarrantSearch: per-intersection accumulation (lines 23-72)
  // ---------------------------------------------------------------------------

  /** The where clause: at the intersection, within 100 feet, alcohol not involved. */
  predicate AtIntersection(c: Collision, id: int) {
    c.intId == Some(id) && c.distance.Some? && c.distance.value <= 100.0 && c.alcohol.None?
  }

  /** The rows the collision cursor yields for an intersection, in table order. */
  function CollisionsAt(table: seq<Collision>, id: int): seq<Collision> {
    if table == [] then []
    else
      var last := table[|table| - 1];
      CollisionsAt(table[..|table| - 1], id) + if AtIntersection(last, id) then [last] else []
  }

  /** intersection_dict[id]: CASE_ID to date for the accepted collisions; a repeated CASE_ID
      keeps its last date, as a dictionary assignment does. */
  function AcceptedDates(cs: seq<Collision>): map<int, int> {
    if cs == [] then map[]
    else
      var last := cs[|cs| - 1];
      var m := AcceptedDates(cs[..|cs| - 1]);
      if Accepts(last.parties) then m[last.caseId := last.date] else m
  }

  /** The map's keys are exactly the CASE_IDs of accepted collisions. */
  lemma {:induction false} AcceptedDatesKeys(cs: seq<Collision>, k: int)
    ensures k in AcceptedDates(cs) <==> exists i :: 0 <= i < |cs| && Accepts(cs[i].parties) && cs[i].caseId == k
  {
    if cs != [] {
      var front := cs[..|cs| - 1];
      AcceptedDatesKeys(front, k);
      if k in AcceptedDates(front) {
        var i :| 0 <= i < |front| && Accepts(front[i].parties) && front[i].caseId == k;
        assert cs[i] == front[i];
      }
      if exists i :: 0 <= i < |cs| && Accepts(cs[i].parties) && cs[i].caseId == k {
        var i :| 0 <= i < |cs| && Accepts(cs[i].parties) && cs[i].caseId == k;
        if i < |front| { assert front[i] == cs[i]; }
      }
    }
  }

  /** With distinct CASE_IDs, each accepted collision is mapped to its own date. */
  lemma {:induction false} AcceptedDatesValue(cs: seq<Collision>, i: nat)
    requires i < |cs| && Accepts(cs[i].parties)
    requires forall a, b :: 0 <= a < b < |cs| ==> cs[a].caseId != cs[b].caseId
    ensures cs[i].caseId in AcceptedDates(cs) && AcceptedDates(cs)[cs[i].caseId] == cs[i].date
  {
    var front := cs[..|cs| - 1];
    if i < |cs| - 1 {
      assert front[i] == cs[i];
      AcceptedDatesValue(front, i);
    }
  }

  /** A pedestrian or bicycle collision that killed or severely injured (severity 1 or 2). */
  predicate BikePedKsi(c: Collision) {
    (c.pedestrian == Some("Y") || c.bicycle == Some("Y")) && (c.severity == Some(1) || c.severity == Some(2))
  }

  /** bike_ped_ksi: counted over every selected collision, whatever the party filter says. */
  function KsiCount(cs: seq<Collision>): (n: nat)
    ensures n <= |cs|
  {
    if cs == [] then 0 else KsiCount(cs[..|cs| - 1]) + if BikePedKsi(cs[|cs| - 1]) then 1 else 0
  }

  /** The collision loop for one intersection. */
  method CollectIntersection(cs: seq<Collision>) returns (dates: map<int, int>, ksi: nat)
    ensures dates == AcceptedDates(cs) && ksi == KsiCount(cs)
  {
    dates, ksi := map[], 0;
    var i := 0;
    while i < |cs|
      invariant 0 <= i <= |cs|
      invariant dates == AcceptedDates(cs[..i]) && ksi == KsiCount(cs[..i])
    {
      assert cs[..i + 1][..i] == cs[..i];
      var collision := cs[i];
      var accepted := PartyFilter(collision.parties);
      if accepted {
        dates := dates[collision.caseId := collision.date];
      }
      if (collision.pedestrian == Some("Y") || collision.bicycle == Some("Y")) &&
         (collision.severity == Some(1) || collision.severity == Some(2)) {
        ksi := ksi + 1;
      }
      i := i + 1;
    }
    assert cs[..i] == cs;
  }

  /** The intersection loop: every intersection gets an entry in both dictionaries. */
  method CollectAll(intersections: seq<int>, table: seq<Collision>)
    returns (intersectionDict: map<int, map<int, int>>, intersectionDict2: map<int, nat>)
    ensures intersectionDict.Keys == (set i | i in intersections) && intersectionDict2.Keys == intersectionDict.Keys
    ensures forall id :: id in intersectionDict ==>
              intersectionDict[id] == AcceptedDates(CollisionsAt(table, id)) &&
              intersectionDict2[id] == KsiCount(CollisionsAt(table, id))
  {
    intersectionDict, intersectionDict2 := map[], map[];
    var i := 0;
    while i < |intersections|
      invariant 0 <= i <= |intersections|
      invariant intersectionDict.Keys == (set j | j in intersections[..i]) && intersectionDict2.Keys == intersectionDict.Keys
      invariant forall id :: id in intersectionDict ==>
                  intersectionDict[id] == AcceptedDates(CollisionsAt(table, id)) &&
                  intersectionDict2[id] == KsiCount(CollisionsAt(table, id))
    {
      var intId := intersections[i];
      assert intersections[..i + 1] == intersections[..i] + [intId];
      var dates, ksi := CollectIntersection(CollisionsAt(table, intId));
      intersectionDict := intersectionDict[intId := dates];
      intersectionDict2 := intersectionDict2[intId := ksi];
      i := i + 1;
    }
    assert intersections[..i] == intersections;
  }

  // ---------------------------------------------------------------------------
  // CountByYear (lines 104-151)
  // ---------------------------------------------------------------------------

  /** The gate on the number of collisions and on the window count. */
  const MinCollisions: int := 5

  /** The window length: a window starting at day d ends at day d + 365, inclusive. */
  const WindowDays: int := 365

  /** A (CASE_ID, date) pair of dict.items(). */
  type Item = (int, int)

  /** items lists the pairs of m, each key once, in some order (dict.items()). */
  predicate ListsItems(items: seq<Item>, m: map<int, int>) {
    && |items| == |m|
    && (forall i :: 0 <= i < |items| ==> items[i].0 in m && m[items[i].0] == items[i].1)
    && (forall i, j :: 0 <= i < j < |items| ==> items[i].0 != items[j].0)
  }

  /** dict.items(): the pairs in the runtime's order, which is chosen here. */
  method Items(m: map<int, int>) returns (items: seq<Item>)
    ensures ListsItems(items, m)
    ensures forall k :: k in m ==> exists i :: 0 <= i < |items| && items[i].0 == k
  {
    var todo := m.Keys;
    items := [];
    while todo != {}
      invariant todo <= m.Keys
      invariant |items| + |todo| == |m|
      invariant forall i :: 0 <= i < |items| ==> items[i].0 in m && m[items[i].0] == items[i].1 && items[i].0 !in todo
      invariant forall i, j :: 0 <= i < j < |items| ==> items[i].0 != items[j].0
      invariant forall k :: k in m ==> k in todo || exists i :: 0 <= i < |items| && items[i].0 == k
      decreases |todo|
    {
      EmptyOrHasElement(todo);
      var k :| k in todo;
      ghost var before := items;
      items := items + [(k, m[k])];
      assert forall i :: 0 <= i < |before| ==> items[i] == before[i];
      assert items[|before|].0 == k;
      todo := todo - {k};
    }
  }

  predicate SortedByDate(s: seq<Item>) {
    forall i, j :: 0 <= i < j < |s| ==> s[i].1 <= s[j].1
  }

  /** Inserts x after every pair whose date is not later than its own. */
  function InsertByDate(x: Item, s: seq<Item>): (r: seq<Item>)
    ensures |r| == |s| + 1
  {
    if s == [] then [x]
    else if x.1 < s[0].1 then [x] + s
    else [s[0]] + InsertByDate(x, s[1..])
  }

  /** Insertion adds exactly x. */
  lemma {:induction false} InsertByDateMultiset(x: Item, s: seq<Item>)
    ensures multiset(InsertByDate(x, s)) == multiset(s) + multiset{x}
  {
    if s != [] && x.1 >= s[0].1 {
      InsertByDateMultiset(x, s[1..]);
      assert s == [s[0]] + s[1..];
    }
  }

  /** A lower bound of x and of every date in s bounds every date after the insertion. */
  lemma {:induction false} InsertByDateLowerBound(x: Item, s: seq<Item>, lo: int)
    requires lo <= x.1 && forall i :: 0 <= i < |s| ==> lo <= s[i].1
    ensures forall i :: 0 <= i < |InsertByDate(x, s)| ==> lo <= InsertByDate(x, s)[i].1
  {
    if s != [] && x.1 >= s[0].1 {
      InsertByDateLowerBound(x, s[1..], lo);
      var rest := InsertByDate(x, s[1..]);
      assert InsertByDate(x, s) == [s[0]] + rest;
    }
  }

  /** Insertion into a sorted list keeps it sorted and adds exactly x. */
  lemma {:induction false} InsertByDateSorted(x: Item, s: seq<Item>)
    requires SortedByDate(s)
    ensures SortedByDate(InsertByDate(x, s)) && multiset(InsertByDate(x, s)) == multiset(s) + multiset{x}
  {
    InsertByDateMultiset(x, s);
    if s != [] && x.1 >= s[0].1 {
      var rest := InsertByDate(x, s[1..]);
      InsertByDateSorted(x, s[1..]);
      InsertByDateLowerBound(x, s[1..], s[0].1);
      SortedCons(s[0], rest);
    } else if s != [] {
      SortedCons(x, s);
    }
  }

  lemma SortedCons(h: Item, t: seq<Item>)
    requires SortedByDate(t) && forall i :: 0 <= i < |t| ==> h.1 <= t[i].1
    ensures SortedByDate([h] + t)
  {
    assert forall i :: 0 < i <= |t| ==> ([h] + t)[i] == t[i - 1];
  }

  /** sorted(items, key=itemgetter(1)): a stable sort by date. */
  function SortByDate(s: seq<Item>): (r: seq<Item>)
    ensures |r| == |s|
  {
    if s == [] then []
    else InsertByDate(s[|s| - 1], SortByDate(s[..|s| - 1]))
  }

  /** The sort returns the same pairs, ordered by date. */
  lemma {:induction false} SortByDateSorted(s: seq<Item>)
    ensures SortedByDate(SortByDate(s)) && multiset(SortByDate(s)) == multiset(s)
  {
    if s != [] {
      var front := s[..|s| - 1];
      SortByDateSorted(front);
      InsertByDateSorted(s[|s| - 1], SortByDate(front));
      assert s == front + [s[|s| - 1]];
    }
  }

  /** all_dates: the dates of the sorted pairs. */
  function Dates(s: seq<Item>): (r: seq<int>)
    ensures |r| == |s|
  {
    seq(|s|, i requires 0 <= i < |s| => s[i].1)
  }

  /** The number of dates d with start <= d <= start + 365. */
  function InWindow(ds: seq<int>, start: int): nat {
    if ds == [] then 0
    else
      var d := ds[|ds| - 1];
      InWindow(ds[..|ds| - 1], start) + if start <= d <= start + WindowDays then 1 else 0
  }

  /** lenslist: for each date, the number of dates in its one-year window. */
  function Windows(ds: seq<int>): (r: seq<int>)
    ensures |r| == |ds|
  {
    seq(|ds|, i requires 0 <= i < |ds| => InWindow(ds, ds[i]))
  }

  lemma {:induction false} InWindowBounds(ds: seq<int>, start: int)
    ensures InWindow(ds, start) <= |ds|
    ensures (exists i :: 0 <= i < |ds| && start <= ds[i] <= start + WindowDays) ==> InWindow(ds, start) >= 1
  {
    if ds != [] {
      var front := ds[..|ds| - 1];
      InWindowBounds(front, start);
      if exists i :: 0 <= i < |ds| && start <= ds[i] <= start + WindowDays {
        var i :| 0 <= i < |ds| && start <= ds[i] <= start + WindowDays;
        if i < |front| { assert front[i] == ds[i]; }
      }
    }
  }

  /** Each window count lies between 1 (the starting collision itself) and the number of dates. */
  lemma WindowCountBounds(ds: seq<int>, i: nat)
    requires i < |ds|
    ensures 1 <= Windows(ds)[i] <= |ds|
  {
    InWindowBounds(ds, ds[i]);
  }

  /** The nested counting loops: all_dates and lenslist for the sorted pairs. */
  method CountWindows(sorted: seq<Item>) returns (allDates: seq<int>, lens: seq<int>)
    ensures allDates == Dates(sorted) && lens == Windows(Dates(sorted))
  {
    ghost var ds := Dates(sorted);
    allDates, lens := [], [];
    var i := 0;
    while i < |sorted|
      invariant 0 <= i <= |sorted|
      invariant allDates == ds[..i] && lens == Windows(ds)[..i]
    {
      var initialDate := sorted[i].1;
      allDates := allDates + [initialDate];
      var oneYearLater := initialDate + WindowDays;
      var colCt := 0;
      var j := 0;
      while j < |sorted|
        invariant 0 <= j <= |sorted|
        invariant colCt == InWindow(ds[..j], initialDate)
      {
        assert ds[..j + 1][..j] == ds[..j];
        if initialDate <= sorted[j].1 <= oneYearLater {
          colCt := colCt + 1;
        }
        j := j + 1;
      }
      assert ds[..j] == ds;
      lens := lens + [colCt];
      assert allDates == ds[..i + 1] && lens == Windows(ds)[..i + 1];
      i := i + 1;
    }
    assert ds[..i] == ds && Windows(ds)[..i] == Windows(ds);
  }

  predicate SomeQualifying(lens: seq<int>) {
    exists i :: 0 <= i < |lens| && lens[i] >= MinCollisions
  }

  /** The latest window start whose count reaches the gate: what latest_qualifying_period_index
      is meant to be. */
  function LatestQualifying(lens: seq<int>): (k: nat)
    requires SomeQualifying(lens)
    ensures k < |lens| && lens[k] >= MinCollisions
    ensures forall j :: k < j < |lens| ==> lens[j] < MinCollisions
  {
    var last := |lens| - 1;
    if lens[last] >= MinCollisions then last
    else
      assert SomeQualifying(lens[..last]) by {
        var i :| 0 <= i < |lens| && lens[i] >= MinCollisions;
        assert lens[..last][i] == lens[i];
      }
      var k := LatestQualifying(lens[..last]);
      assert forall j :: k < j < last ==> lens[j] == lens[..last][j];
      k
  }

  /** greater_than_five after the first n counts: for each qualifying count v, in list order,
      lenslist.index(v), the FIRST position holding v. */
  function GreaterThanFive(lens: seq<int>, n: nat): seq<int>
    requires n <= |lens|
  {
    if n == 0 then []
    else GreaterThanFive(lens, n - 1) + if lens[n - 1] >= MinCollisions then [IndexOf(lens, lens[n - 1])] else []
  }

  /** Every recorded index points at a qualifying count, and one is recorded per qualifying count. */
  lemma {:induction false} GreaterThanFiveFacts(lens: seq<int>, n: nat)
    requires n <= |lens|
    ensures forall x :: x in GreaterThanFive(lens, n) ==> 0 <= x < |lens| && lens[x] >= MinCollisions
    ensures (exists i :: 0 <= i < n && lens[i] >= MinCollisions) ==> |GreaterThanFive(lens, n)| > 0
  {
    if n > 0 {
      GreaterThanFiveFacts(lens, n - 1);
    }
  }

  /** latest_qualifying_period_index as written: max(greater_than_five). */
  function SelectAsWritten(lens: seq<int>): int
    requires SomeQualifying(lens)
  {
    GreaterThanFiveFacts(lens, |lens|);
    Max(GreaterThanFive(lens, |lens|))
  }

  /** The selection loop of lines 140-144 as written. */
  method AsWrittenStartIndex(lens: seq<int>) returns (k: int)
    requires SomeQualifying(lens)
    ensures k == SelectAsWritten(lens)
  {
    var greaterThanFive: seq<int> := [];
    var i := 0;
    while i < |lens|
      invariant 0 <= i <= |lens|
      invariant greaterThanFive == GreaterThanFive(lens, i)
    {
      if lens[i] >= MinCollisions {
        greaterThanFive := greaterThanFive + [IndexOf(lens, lens[i])];
      }
      i := i + 1;
    }
    GreaterThanFiveFacts(lens, |lens|);
    k := Max(greaterThanFive);
  }

  /** The index the script reports does start a qualifying window. */
  lemma AsWrittenQualifies(lens: seq<int>)
    requires SomeQualifying(lens)
    ensures 0 <= SelectAsWritten(lens) < |lens| && lens[SelectAsWritten(lens)] >= MinCollisions
  {
    GreaterThanFiveFacts(lens, |lens|);
  }

  /** It is never later than the latest qualifying window. */
  lemma AsWrittenNoLaterThanLatest(lens: seq<int>)
    requires SomeQualifying(lens)
    ensures SelectAsWritten(lens) <= LatestQualifying(lens)
  {
    AsWrittenQualifies(lens);
  }

  lemma InWindowSnoc(ds: seq<int>, d: int)
    ensures forall start :: InWindow(ds + [d], start) == InWindow(ds, start) + if start <= d <= start + WindowDays then 1 else 0
  {
    assert (ds + [d])[..|ds|] == ds;
  }

  /** The window counts of the dates 0, 1, 2, 3, 4 and 366. */
  lemma ExampleWindows()
    ensures Windows([0, 1, 2, 3, 4, 366]) == [5, 5, 4, 3, 2, 1]
  {
    var e0: seq<int> := [];
    var e1 := e0 + [0];
    var e2 := e1 + [1];
    var e3 := e2 + [2];
    var e4 := e3 + [3];
    var e5 := e4 + [4];
    var ds := e5 + [366];
    InWindowSnoc(e0, 0);
    InWindowSnoc(e1, 1);
    InWindowSnoc(e2, 2);
    InWindowSnoc(e3, 3);
    InWindowSnoc(e4, 4);
    InWindowSnoc(e5, 366);
    assert ds == [0, 1, 2, 3, 4, 366];
  }

  /** The indices the script collects for the counts [5, 5, 4, 3, 2, 1]: both fives are
      recorded as index 0, the first position of the count 5. */
  lemma ExampleIndices(lens: seq<int>)
    requires lens == [5, 5, 4, 3, 2, 1]
    ensures GreaterThanFive(lens, |lens|) == [0, 0]
  {
    assert IndexOf(lens, 5) == 0;
    assert GreaterThanFive(lens, 1) == [0];
    assert GreaterThanFive(lens, 2) == [0, 0];
    assert GreaterThanFive(lens, 3) == [0, 0];
    assert GreaterThanFive(lens, 4) == [0, 0];
    assert GreaterThanFive(lens, 5) == [0, 0];
  }

  /** Dates that show the difference: five collisions on days 0 to 4 and one on day 366 give
      the window counts [5, 5, 4, 3, 2, 1]. The script reports index 0 (day 0), the first
      position of the count 5, while the latest qualifying window starts at index 1 (day 1). */
  lemma AsWrittenMissesLatestWindow()
    ensures var ds := [0, 1, 2, 3, 4, 366];
            var lens := Windows(ds);
            SomeQualifying(lens) && SelectAsWritten(lens) == 0 && LatestQualifying(lens) == 1 &&
            ds[SelectAsWritten(lens)] != ds[LatestQualifying(lens)]
  {
    ExampleWindows();
    var lens := Windows([0, 1, 2, 3, 4, 366]);
    assert SomeQualifying(lens) by { assert lens[0] >= MinCollisions; }
    ExampleIndices(lens);
    assert [0, 0][1..] == [0];
    var latest := LatestQualifying(lens);
    assert lens[1] >= MinCollisions;
  }

  /** The rows for six collisions on days 0, 1, 2, 3, 4 and 366: the script writes start date
      0, the corrected selection start date 1. */
  lemma AsWrittenRowExample(id: int, ksi: int)
    ensures var sorted: seq<Item> := [(1, 0), (2, 1), (3, 2), (4, 3), (5, 4), (6, 366)];
            OutcomeAsWritten(id, sorted, ksi).Some? && OutcomeAsWritten(id, sorted, ksi).value.startDate == 0 &&
            Outcome(id, sorted, ksi).Some? && Outcome(id, sorted, ksi).value.startDate == 1
  {
    var sorted: seq<Item> := [(1, 0), (2, 1), (3, 2), (4, 3), (5, 4), (6, 366)];
    assert Dates(sorted) == [0, 1, 2, 3, 4, 366];
    ExampleWindows();
    AsWrittenMissesLatestWindow();
    var lens := Windows(Dates(sorted));
    assert lens[0] >= MinCollisions;
    assert Max(lens) >= MinCollisions;
  }

  /** The corrected selection loop: the last index whose count reaches the gate. */
  method LatestStartIndex(lens: seq<int>) returns (k: int)
    requires SomeQualifying(lens)
    ensures k == LatestQualifying(lens)
  {
    k := -1;
    var i := 0;
    while i < |lens|
      invariant 0 <= i <= |lens|
      invariant -1 <= k < i
      invariant k >= 0 ==> lens[k] >= MinCollisions
      invariant forall j :: k < j < i ==> lens[j] < MinCollisions
    {
      if lens[i] >= MinCollisions {
        k := i;
      }
      i := i + 1;
    }
    var latest := LatestQualifying(lens);
    assert lens[latest] >= MinCollisions;
  }

  /** A written row: the intersection, the start date of its reported window, its bike/ped
      KSI count and its date-sorted (CASE_ID, date) pairs. */
  datatype SignalRow = SignalRow(intersection: int, startDate: int, bikePedKsi: int, collisions: seq<Item>)

  /** What CountByYear decides for one intersection, given its pairs in sorted order: no row
      unless it has at least 5 collisions and some window holds at least 5. */
  function Outcome(id: int, sorted: seq<Item>, ksi: int): (r: Option<SignalRow>)
    ensures r.Some? ==> |sorted| >= MinCollisions && r.value.intersection == id && r.value.collisions == sorted
    ensures r.Some? ==> exists i :: 0 <= i < |sorted| && r.value.startDate == sorted[i].1 &&
                                    Windows(Dates(sorted))[i] >= MinCollisions &&
                                    forall j :: i < j < |sorted| ==> Windows(Dates(sorted))[j] < MinCollisions
  {
    var lens := Windows(Dates(sorted));
    if |sorted| >= MinCollisions && Max(lens) >= MinCollisions then
      Some(SignalRow(id, Dates(sorted)[LatestQualifying(lens)], ksi, sorted))
    else None
  }

  /** What CountByYear as written decides for one intersection: the same gate and row, with
      the start date at the script's index max(greater_than_five). */
  function OutcomeAsWritten(id: int, sorted: seq<Item>, ksi: int): (r: Option<SignalRow>)
    ensures r.Some? ==> exists i :: 0 <= i < |sorted| && r.value.startDate == sorted[i].1 &&
                                    Windows(Dates(sorted))[i] >= MinCollisions
  {
    var lens := Windows(Dates(sorted));
    if |sorted| >= MinCollisions && Max(lens) >= MinCollisions then
      AsWrittenQualifies(lens);
      Some(SignalRow(id, Dates(sorted)[SelectAsWritten(lens)], ksi, sorted))
    else None
  }

  /** The script and the corrected selection write a row for the same intersections, and the
      rows agree in every field but the start date; on date-sorted pairs the script's start
      date is never later than the latest qualifying window's. */
  lemma OutcomeAsWrittenAgrees(id: int, sorted: seq<Item>, ksi: int)
    ensures OutcomeAsWritten(id, sorted, ksi).None? <==> Outcome(id, sorted, ksi).None?
    ensures OutcomeAsWritten(id, sorted, ksi).Some? ==>
              OutcomeAsWritten(id, sorted, ksi).value ==
              Outcome(id, sorted, ksi).value.(startDate := OutcomeAsWritten(id, sorted, ksi).value.startDate)
    ensures OutcomeAsWritten(id, sorted, ksi).Some? && SortedByDate(sorted) ==>
              OutcomeAsWritten(id, sorted, ksi).value.startDate <= Outcome(id, sorted, ksi).value.startDate
  {
    var lens := Windows(Dates(sorted));
    if |sorted| >= MinCollisions && Max(lens) >= MinCollisions {
      AsWrittenNoLaterThanLatest(lens);
      AsWrittenQualifies(lens);
    }
  }

  /** The no-row case states the gate in full: fewer than 5 collisions, or no window of 5. */
  lemma OutcomeNoneIff(id: int, sorted: seq<Item>, ksi: int)
    ensures Outcome(id, sorted, ksi).None? <==>
            |sorted| < MinCollisions || forall i :: 0 <= i < |sorted| ==> Windows(Dates(sorted))[i] < MinCollisions
  {
    var lens := Windows(Dates(sorted));
    if |sorted| >= MinCollisions && !SomeQualifying(lens) {
      assert Max(lens) in lens;
    }
  }

  /** The body of the intersection loop of CountByYear, with the corrected selection. */
  method EvaluateIntersection(id: int, m: map<int, int>, ksi: int) returns (row: Option<SignalRow>, items: seq<Item>)
    ensures ListsItems(items, m)
    ensures row == Outcome(id, SortByDate(items), ksi)
  {
    items := Items(m);
    row := None;
    ghost var sorted := SortByDate(items);
    if |m| >= MinCollisions {
      var sortedIntersection := SortByDate(items);
      var allDates, lensList := CountWindows(sortedIntersection);
      var maxCt := Max(lensList);
      if maxCt >= MinCollisions {
        var k := LatestStartIndex(lensList);
        row := Some(SignalRow(id, allDates[k], ksi, sortedIntersection));
      }
      assert row == Outcome(id, sorted, ksi);
    } else {
      assert Outcome(id, sorted, ksi) == None;
    }
  }

  /** The body of the intersection loop of CountByYear as written, with the selection of
      lines 140-145. */
  method EvaluateIntersectionAsWritten(id: int, m: map<int, int>, ksi: int) returns (row: Option<SignalRow>, items: seq<Item>)
    ensures ListsItems(items, m)
    ensures row == OutcomeAsWritten(id, SortByDate(items), ksi)
  {
    items := Items(m);
    row := None;
    ghost var sorted := SortByDate(items);
    if |m| >= MinCollisions {
      var sortedIntersection := SortByDate(items);
      var allDates, lensList := CountWindows(sortedIntersection);
      var maxCt := Max(lensList);
      if maxCt >= MinCollisions {
        var k := AsWrittenStartIndex(lensList);
        AsWrittenQualifies(lensList);
        row := Some(SignalRow(id, allDates[k], ksi, sortedIntersection));
      }
      assert row == OutcomeAsWritten(id, sorted, ksi);
    } else {
      assert OutcomeAsWritten(id, sorted, ksi) == None;
    }
  }

  /** Every row is the outcome of its intersection, for the item order chosen for it. */
  predicate RowsDecided(rows: seq<SignalRow>, orders: map<int, seq<Item>>, ksi: map<int, nat>) {
    forall k :: 0 <= k < |rows| ==> RowDecided(rows[k], orders, ksi)
  }

  predicate RowDecided(row: SignalRow, orders: map<int, seq<Item>>, ksi: map<int, nat>) {
    var id := row.intersection;
    id in orders && id in ksi && Some(row) == Outcome(id, SortByDate(orders[id]), ksi[id])
  }

  /** Choosing the item order of another intersection does not change a row's outcome. */
  lemma RowDecidedFrame(row: SignalRow, orders: map<int, seq<Item>>, ksi: map<int, nat>, id: int, items: seq<Item>)
    requires RowDecided(row, orders, ksi) && id !in orders
    ensures RowDecided(row, orders[id := items], ksi)
  {
    var x := row.intersection;
    assert orders[id := items][x] == orders[x];
  }

  /** Every intersection whose outcome is a row has one. */
  predicate RowsCover(rows: seq<SignalRow>, orders: map<int, seq<Item>>, ksi: map<int, nat>) {
    forall id :: id in orders && id in ksi && Outcome(id, SortByDate(orders[id]), ksi[id]).Some? ==>
      exists k :: 0 <= k < |rows| && rows[k].intersection == id
  }

  predicate DistinctIntersections(rows: seq<SignalRow>) {
    forall a, b :: 0 <= a < b < |rows| ==> rows[a].intersection != rows[b].intersection
  }

  /** The rows and orders after deciding one more intersection. */
  function Extend(rows: seq<SignalRow>, row: Option<SignalRow>): (r: seq<SignalRow>)
    ensures row.Some? ==> r == rows + [row.value]
    ensures row.None? ==> r == rows
  {
    if row.Some? then rows + [row.value] else rows
  }

  /** Deciding one more intersection keeps every row decided. */
  lemma DecidedStep(rows: seq<SignalRow>, orders: map<int, seq<Item>>, ksi: map<int, nat>,
                    id: int, items: seq<Item>, row: Option<SignalRow>)
    requires RowsDecided(rows, orders, ksi)
    requires id !in orders && id in ksi && row == Outcome(id, SortByDate(items), ksi[id])
    ensures RowsDecided(Extend(rows, row), orders[id := items], ksi)
  {
    var rows' := Extend(rows, row);
    var orders' := orders[id := items];
    forall k | 0 <= k < |rows'| ensures RowDecided(rows'[k], orders', ksi) {
      if k < |rows| {
        assert rows'[k] == rows[k];
        RowDecidedFrame(rows[k], orders, ksi, id, items);
      } else {
        assert rows'[k] == row.value;
        assert orders'[id] == items;
      }
    }
  }

  /** Deciding one more intersection keeps every intersection with a row covered. */
  lemma CoverStep(rows: seq<SignalRow>, orders: map<int, seq<Item>>, ksi: map<int, nat>,
                  id: int, items: seq<Item>, row: Option<SignalRow>)
    requires RowsCover(rows, orders, ksi)
    requires id in ksi && row == Outcome(id, SortByDate(items), ksi[id])
    ensures RowsCover(Extend(rows, row), orders[id := items], ksi)
  {
    var rows' := Extend(rows, row);
    var orders' := orders[id := items];
    forall x | x in orders' && x in ksi && Outcome(x, SortByDate(orders'[x]), ksi[x]).Some?
      ensures exists k :: 0 <= k < |rows'| && rows'[k].intersection == x
    {
      if x == id {
        assert rows'[|rows|].intersection == id;
      } else {
        var k :| 0 <= k < |rows| && rows[k].intersection == x;
        assert rows'[k].intersection == x;
      }
    }
  }

  /** A row for an intersection not decided before keeps the intersections distinct. */
  lemma DistinctStep(rows: seq<SignalRow>, orders: map<int, seq<Item>>, ksi: map<int, nat>,
                     id: int, row: Option<SignalRow>)
    requires RowsDecided(rows, orders, ksi) && DistinctIntersections(rows)
    requires id !in orders && (row.Some? ==> row.value.intersection == id)
    ensures DistinctIntersections(Extend(rows, row))
  {
    var rows' := Extend(rows, row);
    forall a, b | 0 <= a < b < |rows'| ensures rows'[a].intersection != rows'[b].intersection {
      assert rows'[a] == rows[a];
      assert rows[a].intersection in orders;
    }
  }

  /** The intersection loop of CountByYear, in the dictionary's order. The chosen item orders
      are returned alongside the rows. */
  method CountByYear(intersectionDict: map<int, map<int, int>>, intersectionDict2: map<int, nat>)
    returns (rows: seq<SignalRow>, ghost orders: map<int, seq<Item>>)
    requires intersectionDict.Keys <= intersectionDict2.Keys
    ensures orders.Keys == intersectionDict.Keys
    ensures forall id :: id in orders ==> ListsItems(orders[id], intersectionDict[id])
    ensures RowsDecided(rows, orders, intersectionDict2)
    ensures RowsCover(rows, orders, intersectionDict2)
    ensures DistinctIntersections(rows)
  {
    var todo := intersectionDict.Keys;
    rows, orders := [], map[];
    while todo != {}
      invariant todo <= intersectionDict.Keys
      invariant orders.Keys == intersectionDict.Keys - todo
      invariant forall id :: id in orders ==> ListsItems(orders[id], intersectionDict[id])
      invariant RowsDecided(rows, orders, intersectionDict2)
      invariant RowsCover(rows, orders, intersectionDict2)
      invariant DistinctIntersections(rows)
      decreases |todo|
    {
      EmptyOrHasElement(todo);
      var intersection :| intersection in todo;
      var rowsBefore := rows;
      var row, items := EvaluateIntersection(intersection, intersectionDict[intersection], intersectionDict2[intersection]);
      DecidedStep(rows, orders, intersectionDict2, intersection, items, row);
      CoverStep(rows, orders, intersectionDict2, intersection, items, row);
      DistinctStep(rows, orders, intersectionDict2, intersection, row);
      orders := orders[intersection := items];
      if row.Some? {
        rows := rows + [row.value];
      }
      assert rows == Extend(rowsBefore, row);
      todo := todo - {intersection};
    }
  }

  /** SignalWarrantSearch: collect every intersection, then count, sort and select. */
  method SignalWarrantSearch(intersections: seq<int>, table: seq<Collision>)
    returns (rows: seq<SignalRow>, ghost orders: map<int, seq<Item>>, ghost ksi: map<int, nat>)
    ensures orders.Keys == (set i | i in intersections) && ksi.Keys == orders.Keys
    ensures forall id :: id in orders ==>
              ListsItems(orders[id], AcceptedDates(CollisionsAt(table, id))) && ksi[id] == KsiCount(CollisionsAt(table, id))
    ensures RowsDecided(rows, orders, ksi) && RowsCover(rows, orders, ksi) && DistinctIntersections(rows)
  {
    var intersectionDict, intersectionDict2 := CollectAll(intersections, table);
    rows, orders := CountByYear(intersectionDict, intersectionDict2);
    ksi := intersectionDict2;
  }
}
