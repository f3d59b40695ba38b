/**
 * The spreadsheet as the status directory sees it: a flat table of
 * (name, status) rows, where `store[0]` is spreadsheet row 1 (the header), and
 * the aggregate `getSystemStats` computes over it.
 *
 * The counting is stated for an arbitrary name normaliser `norm`; the sheet
 * itself always uses `NormalizeSystemName`. Keeping the normaliser a parameter
 * lets the counting proofs ignore how names are normalised.
 */
module Sheet {
  import opened PhpStr
  import opened Normalizer

  /** Columns A and B of one spreadsheet row; an empty or null cell is "". */
  datatype Row = Row(name: string, status: string)

  /** Rows 1..n of the sheet, in order; the highest data row is the last one. */
  type Store = seq<Row>

  /** The status that counts a system as tested. */
  const TestedOk: string := "Testad OK"

  /** The trimmed status is exactly "Testad OK". */
  predicate IsTestedOk(status: string) {
    Trim(status, TrimDefault) == TestedOk
  }

  /** The exact status passes the trimmed comparison and the empty status does not. */
  lemma TestedOkPasses()
    ensures IsTestedOk(TestedOk) && !IsTestedOk("")
  {
    TestedOkIsTestedOk();
    EmptyIsNotTestedOk();
  }

  /** Whitespace around "Testad OK" does not matter: " Testad OK\n" passes too. */
  lemma TestedOkPadded(l: string, r: string)
    requires forall k :: 0 <= k < |l| ==> l[k] in TrimDefault
    requires forall k :: 0 <= k < |r| ==> r[k] in TrimDefault
    ensures IsTestedOk(l + TestedOk + r)
  {
    TrimAround(l, TestedOk, r, TrimDefault);
  }

  lemma TestedOkIsTestedOk()
    ensures IsTestedOk(TestedOk)
  {
    TrimKeepsTrimmed(TestedOk);
  }

  lemma EmptyIsNotTestedOk()
    ensures !IsTestedOk("")
  {
  }

  lemma TrimKeepsTrimmed(s: string)
    requires Trimmed(s, TrimDefault)
    ensures Trim(s, TrimDefault) == s
  {
  }

  /** A row the stats loop may count: neither its raw nor its normalised name is PHP-empty. */
  predicate Counted(r: Row, norm: string -> string) {
    !PhpEmpty(r.name) && !PhpEmpty(norm(r.name))
  }

  /** The distinct normalised names of the countable rows. */
  function KeysBy(rows: seq<Row>, norm: string -> string): set<string> {
    set r | r in rows && Counted(r, norm) :: norm(r.name)
  }

  /** Row `i` is the first countable row carrying its normalised name. */
  predicate FirstOfKey(rows: seq<Row>, i: nat, norm: string -> string)
    requires i < |rows|
  {
    Counted(rows[i], norm) && norm(rows[i].name) !in KeysBy(rows[..i], norm)
  }

  /** The normalised names whose first row has a status passing `tested`. */
  function TestedKeysBy(rows: seq<Row>, norm: string -> string, tested: string -> bool): set<string> {
    set i | 0 <= i < |rows| && FirstOfKey(rows, i, norm) && tested(rows[i].status) :: norm(rows[i].name)
  }

  /** The systems a sheet holds. */
  function SystemKeys(rows: seq<Row>): set<string> {
    KeysBy(rows, NormalizeSystemName)
  }

  /** The systems counted as tested OK. */
  function TestedOkKeys(rows: seq<Row>): set<string> {
    TestedKeysBy(rows, NormalizeSystemName, IsTestedOk)
  }

  /** The figures `getSystemStats` returns; the percentage is the exact ratio before rounding. */
  datatype Stats = Stats(testedOkCount: nat, totalSystems: nat, percentageTestedOk: real)

  /** `testedOk / total * 100`, or 0 when there is nothing to divide by. */
  function Percentage(testedOk: nat, total: nat): (p: real)
    ensures total == 0 ==> p == 0.0
    ensures testedOk <= total ==> 0.0 <= p <= 100.0
    ensures total > 0 ==> (p == 100.0 <==> testedOk == total)
    ensures total > 0 ==> (p == 0.0 <==> testedOk == 0)
  {
    if total > 0 then
      RatioBounds(testedOk, total);
      (testedOk as real / total as real) * 100.0
    else
      0.0
  }

  lemma RatioBounds(part: nat, whole: nat)
    requires whole > 0
    ensures var q := part as real / whole as real;
      && 0.0 <= q
      && (part <= whole ==> q <= 1.0)
      && (q == 1.0 <==> part == whole)
      && (q == 0.0 <==> part == 0)
  {
    var k, t := part as real, whole as real;
    var q := k / t;
    assert q * t == k;
    assert (1.0 - q) * t == t - k;
    if q == 1.0 {
      assert k == t;
    }
  }

  lemma KeysBySnoc(rows: seq<Row>, r: Row, norm: string -> string)
    ensures KeysBy(rows + [r], norm) == KeysBy(rows, norm) + (if Counted(r, norm) then {norm(r.name)} else {})
  {
    var rows' := rows + [r];
    forall k | k in KeysBy(rows', norm)
      ensures k in KeysBy(rows, norm) + (if Counted(r, norm) then {norm(r.name)} else {})
    {
      var x :| x in rows' && Counted(x, norm) && norm(x.name) == k;
      if x != r {
        assert x in rows;
      }
    }
    forall k | k in KeysBy(rows, norm)
      ensures k in KeysBy(rows', norm)
    {
      var x :| x in rows && Counted(x, norm) && norm(x.name) == k;
      assert x in rows';
    }
    assert r in rows';
  }

  /** Every tested system is a system. */
  lemma TestedKeysAreKeys(rows: seq<Row>, norm: string -> string, tested: string -> bool)
    ensures TestedKeysBy(rows, norm, tested) <= KeysBy(rows, norm)
  {
    forall k | k in TestedKeysBy(rows, norm, tested)
      ensures k in KeysBy(rows, norm)
    {
      var i :| 0 <= i < |rows| && FirstOfKey(rows, i, norm) && tested(rows[i].status) && norm(rows[i].name) == k;
      assert rows[i] in rows;
    }
  }

  lemma TestedKeysBySnoc(rows: seq<Row>, r: Row, norm: string -> string, tested: string -> bool)
    ensures TestedKeysBy(rows + [r], norm, tested) ==
              TestedKeysBy(rows, norm, tested)
              + (if Counted(r, norm) && norm(r.name) !in KeysBy(rows, norm) && tested(r.status)
                 then {norm(r.name)} else {})
  {
    var rows' := rows + [r];
    var n := |rows|;
    var extra := if Counted(r, norm) && norm(r.name) !in KeysBy(rows, norm) && tested(r.status)
                 then {norm(r.name)} else {};
    forall k | k in TestedKeysBy(rows', norm, tested)
      ensures k in TestedKeysBy(rows, norm, tested) + extra
    {
      var i :| 0 <= i < |rows'| && FirstOfKey(rows', i, norm) && tested(rows'[i].status) && norm(rows'[i].name) == k;
      if i < n {
        FirstOfKeySnoc(rows, r, i, norm);
      } else {
        FirstOfKeySnoc(rows, r, n, norm);
      }
    }
    forall k | k in TestedKeysBy(rows, norm, tested) + extra
      ensures k in TestedKeysBy(rows', norm, tested)
    {
      if k in TestedKeysBy(rows, norm, tested) {
        var i :| 0 <= i < |rows| && FirstOfKey(rows, i, norm) && tested(rows[i].status) && norm(rows[i].name) == k;
        FirstOfKeySnoc(rows, r, i, norm);
        assert rows'[i] == rows[i];
      } else {
        FirstOfKeySnoc(rows, r, n, norm);
        assert rows'[n] == r;
      }
    }
  }

  /** Appending a row changes no earlier row's status as first of its key, and the new row is first when its key is new. */
  lemma FirstOfKeySnoc(rows: seq<Row>, r: Row, i: nat, norm: string -> string)
    requires i <= |rows|
    ensures i < |rows| ==> (rows + [r])[i] == rows[i] && (FirstOfKey(rows + [r], i, norm) <==> FirstOfKey(rows, i, norm))
    ensures i == |rows| ==>
              && (rows + [r])[i] == r
              && (FirstOfKey(rows + [r], i, norm) <==> Counted(r, norm) && norm(r.name) !in KeysBy(rows, norm))
  {
    assert (rows + [r])[..i] == rows[..i];
    assert rows[..|rows|] == rows;
  }

  lemma SubsetCardinality<T>(a: set<T>, b: set<T>)
    requires a <= b
    ensures |a| <= |b|
  {
    assert b == a + (b - a);
  }

  /** Row `r` read after `rows` is counted exactly when it is countable and its name is new. */
  lemma CountStep(rows: seq<Row>, r: Row, norm: string -> string, tested: string -> bool)
    ensures var counted := Counted(r, norm) && norm(r.name) !in KeysBy(rows, norm);
      && KeysBy(rows + [r], norm) == (if counted then KeysBy(rows, norm) + {norm(r.name)} else KeysBy(rows, norm))
      && |KeysBy(rows + [r], norm)| == |KeysBy(rows, norm)| + (if counted then 1 else 0)
      && |TestedKeysBy(rows + [r], norm, tested)|
         == |TestedKeysBy(rows, norm, tested)| + (if counted && tested(r.status) then 1 else 0)
  {
    KeysCountStep(rows, r, norm);
    TestedCountStep(rows, r, norm, tested);
  }

  lemma KeysCountStep(rows: seq<Row>, r: Row, norm: string -> string)
    ensures var counted := Counted(r, norm) && norm(r.name) !in KeysBy(rows, norm);
      && KeysBy(rows + [r], norm) == (if counted then KeysBy(rows, norm) + {norm(r.name)} else KeysBy(rows, norm))
      && |KeysBy(rows + [r], norm)| == |KeysBy(rows, norm)| + (if counted then 1 else 0)
  {
    var keys := KeysBy(rows, norm);
    KeysBySnoc(rows, r, norm);
    if Counted(r, norm) && norm(r.name) !in keys {
      AddFreshCardinality(keys, norm(r.name));
    }
  }

  lemma TestedCountStep(rows: seq<Row>, r: Row, norm: string -> string, tested: string -> bool)
    ensures |TestedKeysBy(rows + [r], norm, tested)|
            == |TestedKeysBy(rows, norm, tested)|
               + (if Counted(r, norm) && norm(r.name) !in KeysBy(rows, norm) && tested(r.status) then 1 else 0)
  {
    var testedKeys := TestedKeysBy(rows, norm, tested);
    TestedKeysBySnoc(rows, r, norm, tested);
    if Counted(r, norm) && norm(r.name) !in KeysBy(rows, norm) && tested(r.status) {
      TestedKeysAreKeys(rows, norm, tested);
      AddFreshCardinality(testedKeys, norm(r.name));
    }
  }

  lemma AddFreshCardinality<T>(a: set<T>, x: T)
    requires x !in a
    ensures |a + {x}| == |a| + 1
  {
  }

  /**
   * The loop of `getSystemStats` over rows 1..n, header included: it skips
   * PHP-empty names, counts each normalised name at its first row, and counts
   * it as tested when that row's status passes `tested`.
   */
  method CountSystems(store: Store, norm: string -> string, tested: string -> bool) returns (testedOk: nat, total: nat)
    ensures total == |KeysBy(store, norm)|
    ensures testedOk == |TestedKeysBy(store, norm, tested)|
  {
    testedOk, total := 0, 0;
    var seen: set<string> := {};
    var i := 0;
    while i < |store|
      invariant 0 <= i <= |store|
      invariant seen == KeysBy(store[..i], norm)
      invariant total == |seen|
      invariant testedOk == |TestedKeysBy(store[..i], norm, tested)|
    {
      var row := store[i];
      assert store[..i + 1] == store[..i] + [row];
      CountStep(store[..i], row, norm, tested);
      if !PhpEmpty(row.name) {
        var normalized := norm(row.name);
        if normalized !in seen && !PhpEmpty(normalized) {
          seen := seen + {normalized};
          total := total + 1;
          if tested(row.status) {
            testedOk := testedOk + 1;
          }
        }
      }
      i := i + 1;
    }
    assert store[..i] == store;
  }

  /** `getSystemStats`: the counts over the whole sheet and their percentage. */
  method GetSystemStats(store: Store) returns (stats: Stats)
    ensures stats.totalSystems == |SystemKeys(store)|
    ensures stats.testedOkCount == |TestedOkKeys(store)|
    ensures stats.testedOkCount <= stats.totalSystems
    ensures stats.percentageTestedOk == Percentage(stats.testedOkCount, stats.totalSystems)
  {
    var testedOk, total := CountSystems(store, NormalizeSystemName, IsTestedOk);
    TestedKeysAreKeys(store, NormalizeSystemName, IsTestedOk);
    SubsetCardinality(TestedOkKeys(store), SystemKeys(store));
    stats := Stats(testedOk, total, Percentage(testedOk, total));
  }
}
