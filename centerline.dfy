/** Model of CenterlineCleaning/ArcPy_boe_Int.py: the street-name normalisation of the
    intersection table, and the FEAT_SEQ pass that gives each pair of duplicate
    intersection points one concatenated ASSETID and CL_NODE_ID. */
module CenterlineCleaning {
  import opened Common

  // ---------------------------------------------------------------------------
  // Upper-casing and Python's string order
  // ---------------------------------------------------------------------------

  predicate IsLower(c: char) { 'a' <= c <= 'z' }

  /** ASCII upper-casing of one character. */
  function UpperChar(c: char): char {
    if IsLower(c) then (c as int - 32) as char else c
  }

  /** No lower-case letter occurs in s. */
  predicate IsUpperCase(s: string) {
    forall i :: 0 <= i < |s| ==> !IsLower(s[i])
  }

  /** Python's str.upper(), restricted to ASCII letters. */
  function Upper(s: string): (r: string)
    ensures |r| == |s|
    ensures forall i :: 0 <= i < |s| ==> r[i] == UpperChar(s[i])
    ensures IsUpperCase(r)
    ensures IsUpperCase(s) ==> r == s
  {
    if s == [] then [] else [UpperChar(s[0])] + Upper(s[1..])
  }

  /** Python's `<` on strings: lexicographic by character code, a proper prefix being smaller. */
  predicate LexLess(a: string, b: string)
  {
    if |a| == 0 then |b| > 0
    else if |b| == 0 then false
    else if a[0] != b[0] then a[0] < b[0]
    else LexLess(a[1..], b[1..])
  }

  /** `<` on strings is asymmetric: never both a < b and b < a. */
  lemma {:induction false} LexLessAsymmetric(a: string, b: string)
    ensures !(LexLess(a, b) && LexLess(b, a))
  {
    if |a| > 0 && |b| > 0 && a[0] == b[0] {
      LexLessAsymmetric(a[1..], b[1..]);
    }
  }

  /** `<` on strings is total: of two different strings one is smaller. */
  lemma {:induction false} LexLessTotal(a: string, b: string)
    ensures LexLess(a, b) || a == b || LexLess(b, a)
  {
    if |a| > 0 && |b| > 0 && a[0] == b[0] {
      LexLessTotal(a[1..], b[1..]);
      if a[1..] == b[1..] {
        assert a == [a[0]] + a[1..] && b == [b[0]] + b[1..];
      }
    }
  }

  // ---------------------------------------------------------------------------
  // FROM/TO normalisation (lines 54-75)
  // ---------------------------------------------------------------------------

  /** One row of the intersection layer; ASSETID stands for the fields the pass leaves alone. */
  datatype StreetRow = StreetRow(assetId: string, fromSt: string, toSt: string)

  /** The (From_St, To_St) entry the search loop appends for one row: both names upper-cased,
      the smaller first. */
  function Ordered(fromSt: string, toSt: string): (string, string) {
    var f, t := Upper(fromSt), Upper(toSt);
    if LexLess(f, t) then (f, t) else (t, f)
  }

  /** The entry is in order, upper-case, and holds exactly the two upper-cased names. */
  lemma OrderedFacts(fromSt: string, toSt: string)
    ensures var r := Ordered(fromSt, toSt);
            && (LexLess(r.0, r.1) || r.0 == r.1)
            && multiset{r.0, r.1} == multiset{Upper(fromSt), Upper(toSt)}
            && IsUpperCase(r.0) && IsUpperCase(r.1)
  {
    LexLessTotal(Upper(fromSt), Upper(toSt));
  }

  /** Normalising an already normalised pair of names changes nothing. */
  lemma OrderedIdempotent(fromSt: string, toSt: string)
    ensures var r := Ordered(fromSt, toSt); Ordered(r.0, r.1) == r
  {
    var r := Ordered(fromSt, toSt);
    OrderedFacts(fromSt, toSt);
    LexLessAsymmetric(r.0, r.1);
    if r.0 == r.1 {
      assert !LexLess(r.0, r.1) by { LexLessAsymmetric(r.0, r.0); }
    }
  }

  /** The two branches of the search loop, in terms of Ordered. */
  lemma OrderedChoice(fromSt: string, toSt: string)
    ensures var f, t := Upper(fromSt), Upper(toSt);
            Ordered(fromSt, toSt) == if LexLess(f, t) then (f, t) else (t, f)
  {
  }

  /** The search-cursor loop: one (From_St, To_St) entry per row, in row order. */
  method CollectNames(rows: seq<StreetRow>) returns (fromSts: seq<string>, toSts: seq<string>)
    ensures |fromSts| == |rows| && |toSts| == |rows|
    ensures forall i :: 0 <= i < |rows| ==>
              (fromSts[i], toSts[i]) == Ordered(rows[i].fromSt, rows[i].toSt)
  {
    fromSts, toSts := [], [];
    var i := 0;
    while i < |rows|
      invariant 0 <= i <= |rows|
      invariant |fromSts| == i && |toSts| == i
      invariant forall j :: 0 <= j < i ==>
                  (fromSts[j], toSts[j]) == Ordered(rows[j].fromSt, rows[j].toSt)
    {
      var curFrom, curTo := Upper(rows[i].fromSt), Upper(rows[i].toSt);
      var first, second;
      if LexLess(curFrom, curTo) {
        first, second := curFrom, curTo;
      } else {
        first, second := curTo, curFrom;
      }
      OrderedChoice(rows[i].fromSt, rows[i].toSt);
      fromSts := fromSts + [first];
      toSts := toSts + [second];
      i := i + 1;
    }
  }

  /** The update-cursor loop: entry i goes to row i. Indexing past the end of either list
      raises in the script; then ok is false and only the rows before that index are updated. */
  method WriteNames(table: array<StreetRow>, fromSts: seq<string>, toSts: seq<string>)
    returns (ok: bool)
    modifies table
    ensures ok <==> table.Length <= |fromSts| && table.Length <= |toSts|
    ensures forall i :: 0 <= i < table.Length ==>
              table[i] == if i < |fromSts| && i < |toSts|
                          then old(table[i]).(fromSt := fromSts[i], toSt := toSts[i])
                          else old(table[i])
  {
    var i := 0;
    while i < table.Length && i < |fromSts| && i < |toSts|
      invariant 0 <= i <= table.Length && i <= |fromSts| && i <= |toSts|
      invariant forall j :: 0 <= j < i ==>
                  table[j] == old(table[j]).(fromSt := fromSts[j], toSt := toSts[j])
      invariant forall j :: i <= j < table.Length ==> table[j] == old(table[j])
    {
      table[i] := table[i].(fromSt := fromSts[i], toSt := toSts[i]);
      i := i + 1;
    }
    ok := i == table.Length;
  }

  /** Both loops together: every row ends up with its names normalised, nothing else changes. */
  method NormaliseNames(table: array<StreetRow>)
    modifies table
    ensures forall i :: 0 <= i < table.Length ==>
              var r := Ordered(old(table[i]).fromSt, old(table[i]).toSt);
              table[i] == old(table[i]).(fromSt := r.0, toSt := r.1)
  {
    var fromSts, toSts := CollectNames(table[..]);
    var ok := WriteNames(table, fromSts, toSts);
  }

  // ---------------------------------------------------------------------------
  // Decimal identifiers: str(int(s))
  // ---------------------------------------------------------------------------

  predicate IsDigit(c: char) { '0' <= c <= '9' }

  predicate AllDigits(s: string) { forall i :: 0 <= i < |s| ==> IsDigit(s[i]) }

  /** A string int() accepts in this model: a non-empty run of decimal digits. */
  predicate IsDecimal(s: string) { |s| > 0 && AllDigits(s) }

  function DigitChar(d: nat): char
    requires d < 10
  {
    ('0' as int + d) as char
  }

  /** str(n) for a non-negative integer. */
  function Decimal(n: nat): (r: string)
    ensures IsDecimal(r)
  {
    if n < 10 then [DigitChar(n)] else Decimal(n / 10) + [DigitChar(n % 10)]
  }

  /** int(s) for a string of decimal digits. */
  function ParseDecimal(s: string): nat
    requires AllDigits(s)
  {
    if s == [] then 0
    else 10 * ParseDecimal(s[..|s| - 1]) + (s[|s| - 1] as int - '0' as int)
  }

  lemma {:induction false} ParseDecimalInverse(n: nat)
    ensures ParseDecimal(Decimal(n)) == n
  {
    if n >= 10 {
      var s := Decimal(n);
      assert s[..|s| - 1] == Decimal(n / 10);
      ParseDecimalInverse(n / 10);
    }
  }

  /** str(int(s)): the canonical decimal spelling of a digit string. */
  function Canonical(s: string): (r: string)
    requires IsDecimal(s)
    ensures IsDecimal(r)
  {
    Decimal(ParseDecimal(s))
  }

  /** The concatenated identifier str(int(cur)) + "_" + str(int(prev)). */
  function JoinIds(cur: string, prev: string): string
    requires IsDecimal(cur) && IsDecimal(prev)
  {
    Canonical(cur) + "_" + Canonical(prev)
  }

  /** In x + "_" + y with x decimal, the first underscore stands right after x. */
  lemma UnderscoreAfterDigits(x: string, y: string)
    requires AllDigits(x)
    ensures (x + "_" + y)[|x|] == '_'
    ensures forall j :: 0 <= j < |x| ==> (x + "_" + y)[j] != '_'
  {
    forall j | 0 <= j < |x| ensures (x + "_" + y)[j] != '_' {
      assert (x + "_" + y)[j] == x[j];
    }
  }

  lemma SplitAtUnderscore(x: string, y: string, u: string, v: string)
    requires IsDecimal(x) && IsDecimal(y) && IsDecimal(u) && IsDecimal(v)
    requires x + "_" + y == u + "_" + v
    ensures x == u && y == v
  {
    var w := x + "_" + y;
    UnderscoreAfterDigits(x, y);
    UnderscoreAfterDigits(u, v);
    assert |x| == |u|;
    assert x == w[..|x|];
    assert u == w[..|u|];
    assert y == w[|x| + 1..];
    assert v == (u + "_" + v)[|u| + 1..];
  }

  /** Two digit strings with the same canonical spelling stand for the same number. */
  lemma CanonicalInjective(s: string, s': string)
    requires IsDecimal(s) && IsDecimal(s')
    requires Canonical(s) == Canonical(s')
    ensures ParseDecimal(s) == ParseDecimal(s')
  {
    ParseDecimalInverse(ParseDecimal(s));
    ParseDecimalInverse(ParseDecimal(s'));
  }

  /** A concatenated identifier determines both numbers it was made from. */
  lemma JoinIdsInjective(cur: string, prev: string, cur': string, prev': string)
    requires IsDecimal(cur) && IsDecimal(prev) && IsDecimal(cur') && IsDecimal(prev')
    requires JoinIds(cur, prev) == JoinIds(cur', prev')
    ensures ParseDecimal(cur) == ParseDecimal(cur') && ParseDecimal(prev) == ParseDecimal(prev')
  {
    SplitAtUnderscore(Canonical(cur), Canonical(prev), Canonical(cur'), Canonical(prev'));
    CanonicalInjective(cur, cur');
    CanonicalInjective(prev, prev');
  }

  // ---------------------------------------------------------------------------
  // FEAT_SEQ pairing and write-back (lines 110-137)
  // ---------------------------------------------------------------------------

  /** One row of the duplicate-point layer, in the cursors' FEAT_SEQ order. */
  datatype DupRow = DupRow(featSeq: int, assetId: string, clNodeId: string)

  predicate DecimalIds(rows: seq<DupRow>) {
    forall i :: 0 <= i < |rows| ==> IsDecimal(rows[i].assetId) && IsDecimal(rows[i].clNodeId)
  }

  /** The row indices i >= 1 whose FEAT_SEQ equals that of row i - 1, in increasing order. */
  function PairIndices(rows: seq<DupRow>): (r: seq<nat>)
    ensures forall k :: 0 <= k < |r| ==> 1 <= r[k] < |rows|
  {
    if |rows| < 2 then []
    else
      var n := |rows|;
      PairIndices(rows[..n - 1]) + if rows[n - 1].featSeq == rows[n - 2].featSeq then [n - 1] else []
  }

  /** The last step of PairIndices, applied to rows. */
  lemma PairIndicesLast(rows: seq<DupRow>)
    requires |rows| >= 2
    ensures var n := |rows|;
            PairIndices(rows) == PairIndices(rows[..n - 1]) + if rows[n - 1].featSeq == rows[n - 2].featSeq then [n - 1] else []
  {
  }

  /** Every listed row shares the previous row's FEAT_SEQ (so the first row is never listed). */
  lemma {:induction false} PairIndicesShared(rows: seq<DupRow>)
    ensures forall k :: 0 <= k < |PairIndices(rows)| ==> rows[PairIndices(rows)[k]].featSeq == rows[PairIndices(rows)[k] - 1].featSeq
  {
    if |rows| >= 2 {
      var n := |rows|;
      var front := rows[..n - 1];
      var pf := PairIndices(front);
      PairIndicesShared(front);
      PairIndicesLast(rows);
      var r := PairIndices(rows);
      forall k | 0 <= k < |r| ensures rows[r[k]].featSeq == rows[r[k] - 1].featSeq {
        if k < |pf| {
          assert r[k] == pf[k] && front[pf[k]] == rows[pf[k]] && front[pf[k] - 1] == rows[pf[k] - 1];
        } else {
          assert r[k] == n - 1 && rows[n - 1].featSeq == rows[n - 2].featSeq;
        }
      }
    }
  }

  /** The listed rows are in increasing order. */
  lemma {:induction false} PairIndicesIncreasing(rows: seq<DupRow>)
    ensures forall k, l :: 0 <= k < l < |PairIndices(rows)| ==> PairIndices(rows)[k] < PairIndices(rows)[l]
  {
    if |rows| >= 2 {
      var n := |rows|;
      var front := rows[..n - 1];
      var pf := PairIndices(front);
      PairIndicesIncreasing(front);
      PairIndicesLast(rows);
      var r := PairIndices(rows);
      forall k, l | 0 <= k < l < |r| ensures r[k] < r[l] {
        assert r[k] == pf[k];
      }
    }
  }

  /** Every row that shares the previous row's FEAT_SEQ is listed. */
  lemma {:induction false} PairIndicesComplete(rows: seq<DupRow>)
    ensures forall i :: 1 <= i < |rows| && rows[i].featSeq == rows[i - 1].featSeq ==> i in PairIndices(rows)
  {
    if |rows| >= 2 {
      var n := |rows|;
      var front := rows[..n - 1];
      var pf := PairIndices(front);
      PairIndicesComplete(front);
      PairIndicesLast(rows);
      var r := PairIndices(rows);
      forall i | 1 <= i < n && rows[i].featSeq == rows[i - 1].featSeq ensures i in r {
        if i < n - 1 {
          assert front[i] == rows[i] && front[i - 1] == rows[i - 1];
          assert i in pf;
        } else {
          assert r[|r| - 1] == i;
        }
      }
    }
  }

  lemma PairIndicesStep(rows: seq<DupRow>, i: nat)
    requires i < |rows|
    ensures PairIndices(rows[..i + 1]) ==
            PairIndices(rows[..i]) + if i >= 1 && rows[i].featSeq == rows[i - 1].featSeq then [i] else []
  {
    assert rows[..i + 1][..i] == rows[..i];
  }

  /** The two identifier columns the pass rewrites. */
  datatype IdColumn = AssetIdColumn | NodeIdColumn

  function Column(r: DupRow, col: IdColumn): string {
    match col
    case AssetIdColumn => r.assetId
    case NodeIdColumn => r.clNodeId
  }

  /** The identifier joined from row i (first) and row i - 1 of the given column. */
  function PairId(rows: seq<DupRow>, col: IdColumn, i: nat): string
    requires DecimalIds(rows) && 1 <= i < |rows|
  {
    JoinIds(Column(rows[i], col), Column(rows[i - 1], col))
  }

  /** The identifiers of the pairs ending at the rows p, in order. */
  function PairIds(rows: seq<DupRow>, p: seq<nat>, col: IdColumn): (r: seq<string>)
    requires DecimalIds(rows) && forall k :: 0 <= k < |p| ==> 1 <= p[k] < |rows|
    ensures |r| == |p|
  {
    seq(|p|, k requires 0 <= k < |p| => PairId(rows, col, p[k]))
  }

  /** ids lists every target twice in a row, and nothing else. */
  predicate Doubled(ids: seq<string>, targets: seq<string>) {
    && |ids| == 2 * |targets|
    && forall k :: 0 <= k < |targets| ==> ids[2 * k] == targets[k] && ids[2 * k + 1] == targets[k]
  }

  lemma DoubledStep(ids: seq<string>, targets: seq<string>, id: string)
    requires Doubled(ids, targets)
    ensures Doubled(ids + [id, id], targets + [id])
  {
    var ids', targets' := ids + [id, id], targets + [id];
    forall k | 0 <= k < |targets'| ensures ids'[2 * k] == targets'[k] && ids'[2 * k + 1] == targets'[k] {
      if k < |targets| {
        assert ids'[2 * k] == ids[2 * k] && ids'[2 * k + 1] == ids[2 * k + 1];
      }
    }
  }

  /** ids holds, at positions 2k and 2k+1, the identifier joined from rows p[k] and p[k] - 1
      of the given column, and nothing else. */
  predicate EmitsPairs(rows: seq<DupRow>, p: seq<nat>, col: IdColumn, ids: seq<string>)
    requires DecimalIds(rows)
  {
    && (forall k :: 0 <= k < |p| ==> 1 <= p[k] < |rows|)
    && Doubled(ids, PairIds(rows, p, col))
  }

  lemma EmitsPairsStep(rows: seq<DupRow>, p: seq<nat>, col: IdColumn, ids: seq<string>, i: nat)
    requires DecimalIds(rows) && EmitsPairs(rows, p, col, ids) && 1 <= i < |rows|
    ensures EmitsPairs(rows, p + [i], col, ids + [PairId(rows, col, i), PairId(rows, col, i)])
  {
    var p' := p + [i];
    assert forall k :: 0 <= k < |p| ==> p'[k] == p[k];
    assert PairIds(rows, p', col) == PairIds(rows, p, col) + [PairId(rows, col, i)];
    DoubledStep(ids, PairIds(rows, p, col), PairId(rows, col, i));
  }

  /** The search-cursor loop: for every row whose FEAT_SEQ equals the previous row's, the
      concatenated ASSETID and CL_NODE_ID (current row first) are appended twice. */
  method ConcatenateIds(rows: seq<DupRow>) returns (assetIds: seq<string>, nodeIds: seq<string>)
    requires DecimalIds(rows)
    ensures EmitsPairs(rows, PairIndices(rows), AssetIdColumn, assetIds)
    ensures EmitsPairs(rows, PairIndices(rows), NodeIdColumn, nodeIds)
  {
    assetIds, nodeIds := [], [];
    var prevFeat: Option<int> := None;   // the script starts from "", which no FEAT_SEQ equals
    var prevAsset, prevCl := "", "";
    var i := 0;
    while i < |rows|
      invariant 0 <= i <= |rows|
      invariant i == 0 ==> prevFeat == None
      invariant i > 0 ==> prevFeat == Some(rows[i - 1].featSeq) &&
                          prevAsset == rows[i - 1].assetId && prevCl == rows[i - 1].clNodeId
      invariant EmitsPairs(rows, PairIndices(rows[..i]), AssetIdColumn, assetIds)
      invariant EmitsPairs(rows, PairIndices(rows[..i]), NodeIdColumn, nodeIds)
    {
      var cur := rows[i];
      ghost var p := PairIndices(rows[..i]);
      PairIndicesStep(rows, i);
      if prevFeat == Some(cur.featSeq) {
        assert i >= 1 && rows[i].featSeq == rows[i - 1].featSeq;
        assert PairIndices(rows[..i + 1]) == p + [i];
        var assetId := JoinIds(cur.assetId, prevAsset);
        var nodeId := JoinIds(cur.clNodeId, prevCl);
        EmitsPairsStep(rows, p, AssetIdColumn, assetIds, i);
        EmitsPairsStep(rows, p, NodeIdColumn, nodeIds, i);
        assetIds := assetIds + [assetId, assetId];
        nodeIds := nodeIds + [nodeId, nodeId];
      } else {
        assert PairIndices(rows[..i + 1]) == p;
      }
      prevFeat, prevAsset, prevCl := Some(cur.featSeq), cur.assetId, cur.clNodeId;
      i := i + 1;
    }
    assert rows[..i] == rows;
  }

  /** The update-cursor loop: entry i of both lists goes to row i. Running out of entries
      raises in the script; then ok is false and only the rows before that index are updated. */
  method WriteIds(table: array<DupRow>, assetIds: seq<string>, nodeIds: seq<string>)
    returns (ok: bool)
    modifies table
    ensures ok <==> table.Length <= |assetIds| && table.Length <= |nodeIds|
    ensures forall i :: 0 <= i < table.Length ==>
              table[i] == if i < |assetIds| && i < |nodeIds|
                          then old(table[i]).(assetId := assetIds[i], clNodeId := nodeIds[i])
                          else old(table[i])
  {
    var i := 0;
    while i < table.Length && i < |assetIds| && i < |nodeIds|
      invariant 0 <= i <= table.Length && i <= |assetIds| && i <= |nodeIds|
      invariant forall j :: 0 <= j < i ==>
                  table[j] == old(table[j]).(assetId := assetIds[j], clNodeId := nodeIds[j])
      invariant forall j :: i <= j < table.Length ==> table[j] == old(table[j])
    {
      table[i] := table[i].(assetId := assetIds[i], clNodeId := nodeIds[i]);
      i := i + 1;
    }
    ok := i == table.Length;
  }

  /** Both passes over the duplicate layer: the write-back completes exactly when the
      table has no more rows than twice the number of adjacent equal-FEAT_SEQ pairs. */
  method MergeDuplicateIds(table: array<DupRow>) returns (ok: bool)
    requires DecimalIds(table[..])
    modifies table
    ensures ok <==> table.Length <= 2 * |PairIndices(old(table[..]))|
    ensures WrittenBack(old(table[..]), PairIndices(old(table[..])), table[..])
  {
    ghost var rows := table[..];
    var assetIds, nodeIds := ConcatenateIds(table[..]);
    ok := WriteIds(table, assetIds, nodeIds);
    WrittenPairs(rows, PairIndices(rows), assetIds, nodeIds, table[..]);
  }

  /** The table after the write-back: both rows 2k and 2k+1 (where they exist) carry the
      identifiers joined from the k-th pair (p[k], p[k] - 1), and the rows past the lists keep
      their own. */
  predicate WrittenBack(rows: seq<DupRow>, p: seq<nat>, written: seq<DupRow>)
    requires DecimalIds(rows) && forall k :: 0 <= k < |p| ==> 1 <= p[k] < |rows|
  {
    && |written| == |rows|
    && (forall k :: 0 <= k < |p| ==>
          var i := p[k];
          forall j :: 0 <= j < |rows| && (j == 2 * k || j == 2 * k + 1) ==>
            written[j] == rows[j].(assetId := JoinIds(rows[i].assetId, rows[i - 1].assetId),
                                   clNodeId := JoinIds(rows[i].clNodeId, rows[i - 1].clNodeId)))
    && (forall j :: 2 * |p| <= j < |rows| ==> written[j] == rows[j])
  }

  /** Writing the emitted lists back by index gives WrittenBack. */
  lemma WrittenPairs(rows: seq<DupRow>, p: seq<nat>, assetIds: seq<string>, nodeIds: seq<string>, written: seq<DupRow>)
    requires DecimalIds(rows)
    requires EmitsPairs(rows, p, AssetIdColumn, assetIds) && EmitsPairs(rows, p, NodeIdColumn, nodeIds)
    requires |written| == |rows|
    requires forall i :: 0 <= i < |rows| ==>
               written[i] == if i < |assetIds| && i < |nodeIds|
                             then rows[i].(assetId := assetIds[i], clNodeId := nodeIds[i])
                             else rows[i]
    ensures WrittenBack(rows, p, written)
  {
    forall k | 0 <= k < |p|
      ensures var i := p[k];
              forall j :: 0 <= j < |rows| && (j == 2 * k || j == 2 * k + 1) ==>
                written[j] == rows[j].(assetId := JoinIds(rows[i].assetId, rows[i - 1].assetId),
                                       clNodeId := JoinIds(rows[i].clNodeId, rows[i - 1].clNodeId))
    {
      var i := p[k];
      assert assetIds[2 * k] == assetIds[2 * k + 1] == JoinIds(rows[i].assetId, rows[i - 1].assetId);
      assert nodeIds[2 * k] == nodeIds[2 * k + 1] == JoinIds(rows[i].clNodeId, rows[i - 1].clNodeId);
    }
  }

  /** Every FEAT_SEQ group of the sorted table has exactly two rows. */
  predicate InPairs(rows: seq<DupRow>) {
    && |rows| % 2 == 0
    && (forall k :: 0 <= k < |rows| && 2 * k + 1 < |rows| ==> rows[2 * k].featSeq == rows[2 * k + 1].featSeq)
    && (forall k :: 1 <= k < |rows| && 2 * k < |rows| ==> rows[2 * k - 1].featSeq != rows[2 * k].featSeq)
  }

  /** Dropping the last pair of a table in pairs leaves a table in pairs. */
  lemma InPairsFront(rows: seq<DupRow>)
    requires InPairs(rows) && |rows| >= 2
    ensures InPairs(rows[..|rows| - 2])
  {
    var front := rows[..|rows| - 2];
    forall k | 0 <= k < |front| && 2 * k + 1 < |front| ensures front[2 * k].featSeq == front[2 * k + 1].featSeq {
      assert front[2 * k] == rows[2 * k] && front[2 * k + 1] == rows[2 * k + 1];
    }
    forall k | 1 <= k < |front| && 2 * k < |front| ensures front[2 * k - 1].featSeq != front[2 * k].featSeq {
      assert front[2 * k - 1] == rows[2 * k - 1] && front[2 * k] == rows[2 * k];
    }
  }

  /** When every group is a pair, the pairs are rows (2k, 2k+1): the lists have exactly one
      entry per row, and both rows of a pair receive the identifier made from that pair. */
  lemma {:induction false} InPairsIndices(rows: seq<DupRow>)
    requires InPairs(rows)
    ensures 2 * |PairIndices(rows)| == |rows|
    ensures forall k :: 0 <= k < |PairIndices(rows)| ==> PairIndices(rows)[k] == 2 * k + 1
  {
    var n := |rows|;
    if n > 0 {
      var m := n / 2;
      assert n == 2 * m && m >= 1;
      var front := rows[..n - 2];
      var mid := rows[..n - 1];
      InPairsFront(rows);
      InPairsIndices(front);
      assert rows[n - 2].featSeq == rows[n - 1].featSeq by {
        assert 2 * (m - 1) + 1 == n - 1;
      }
      var pm := PairIndices(mid);
      if n >= 4 {
        assert rows[n - 3].featSeq != rows[n - 2].featSeq by {
          assert 2 * (m - 1) - 1 == n - 3;
        }
        assert mid[..n - 2] == front;
        assert mid[n - 2] == rows[n - 2] && mid[n - 3] == rows[n - 3];
        assert pm == PairIndices(front);
      } else {
        assert pm == [];
        assert PairIndices(front) == [];
      }
      assert PairIndices(rows) == pm + [n - 1];
    }
  }
}
