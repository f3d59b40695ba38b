/**
 * The page that lists the systems: its own scan of the sheet, which counts
 * rows rather than distinct names and compares the raw status, the HTML-safe
 * id built for each row, and the text shown for a missing status.
 */
module Display {
  import opened PhpStr
  import opened Sheet

  /** The rows the page lists: those whose raw name is not PHP-empty, in sheet order. */
  function KeptRows(rows: seq<Row>): (r: seq<Row>)
    ensures |r| <= |rows|
  {
    if rows == [] then []
    else (if PhpEmpty(rows[0].name) then [] else [rows[0]]) + KeptRows(rows[1..])
  }

  /** A row is listed exactly when it is in the sheet and its raw name is not PHP-empty. */
  lemma {:induction false} KeptRowsMembers(rows: seq<Row>)
    ensures forall x :: x in KeptRows(rows) <==> x in rows && !PhpEmpty(x.name)
  {
    if rows != [] {
      KeptRowsMembers(rows[1..]);
      assert rows == [rows[0]] + rows[1..];
    }
  }

  /** Filtering commutes with concatenation, so the page keeps the sheet's order. */
  lemma {:induction false} KeptRowsAppend(a: seq<Row>, b: seq<Row>)
    ensures KeptRows(a + b) == KeptRows(a) + KeptRows(b)
  {
    if a != [] {
      assert (a + b)[1..] == a[1..] + b;
      KeptRowsAppend(a[1..], b);
    } else {
      assert a + b == b;
    }
  }

  /** The listed rows whose raw status is exactly "Testad OK" (no trimming here). */
  function OkRows(rows: seq<Row>): (r: seq<Row>)
    ensures |r| <= |rows|
  {
    if rows == [] then []
    else (if rows[0].status == TestedOk then [rows[0]] else []) + OkRows(rows[1..])
  }

  /** A listed row counts as tested exactly when its raw status is "Testad OK". */
  lemma {:induction false} OkRowsMembers(rows: seq<Row>)
    ensures forall x :: x in OkRows(rows) <==> x in rows && x.status == TestedOk
  {
    if rows != [] {
      OkRowsMembers(rows[1..]);
      assert rows == [rows[0]] + rows[1..];
    }
  }

  lemma {:induction false} OkRowsAppend(a: seq<Row>, b: seq<Row>)
    ensures OkRows(a + b) == OkRows(a) + OkRows(b)
  {
    if a != [] {
      assert (a + b)[1..] == a[1..] + b;
      OkRowsAppend(a[1..], b);
    } else {
      assert a + b == b;
    }
  }

  /** One more row: it is listed when its name is not empty, and counted as tested when its status matches. */
  lemma ScanStep(rows: seq<Row>, row: Row)
    ensures KeptRows(rows + [row]) == KeptRows(rows) + (if PhpEmpty(row.name) then [] else [row])
    ensures OkRows(KeptRows(rows) + [row]) == OkRows(KeptRows(rows)) + (if row.status == TestedOk then [row] else [])
  {
    KeptRowsAppend(rows, [row]);
    assert KeptRows([row]) == (if PhpEmpty(row.name) then [] else [row]) + KeptRows([]);
    OkRowsAppend(KeptRows(rows), [row]);
    assert OkRows([row]) == (if row.status == TestedOk then [row] else []) + OkRows([]);
  }

  /** What the page computes before rendering: the listed rows and its two counts. */
  datatype Listing = Listing(data: seq<Row>, testedOkCount: nat, totalSystems: nat)

  /**
   * The page's loop over the sheet: every row with a non-empty raw name is
   * listed and counted, duplicates included, and counted as tested when its
   * raw status equals "Testad OK".
   */
  method ScanRows(store: Store) returns (listing: Listing)
    ensures listing.data == KeptRows(store)
    ensures listing.totalSystems == |listing.data|
    ensures listing.testedOkCount == |OkRows(listing.data)|
    ensures listing.testedOkCount <= listing.totalSystems
  {
    var data: seq<Row> := [];
    var testedOk, total := 0, 0;
    var i := 0;
    while i < |store|
      invariant 0 <= i <= |store|
      invariant data == KeptRows(store[..i])
      invariant total == |data|
      invariant testedOk == |OkRows(data)|
    {
      var row := store[i];
      assert store[..i + 1] == store[..i] + [row];
      ScanStep(store[..i], row);
      if !PhpEmpty(row.name) {
        data := data + [row];
        total := total + 1;
        if row.status == TestedOk {
          testedOk := testedOk + 1;
        }
      }
      i := i + 1;
    }
    assert store[..i] == store;
    listing := Listing(data, testedOk, total);
  }

  /** The page's percentage, computed from its own counts. */
  method PageStats(store: Store) returns (listing: Listing, percentage: real)
    ensures listing.data == KeptRows(store)
    ensures listing.totalSystems == |KeptRows(store)|
    ensures listing.testedOkCount == |OkRows(KeptRows(store))|
    ensures percentage == Percentage(listing.testedOkCount, listing.totalSystems)
    ensures 0.0 <= percentage <= 100.0
    ensures listing.totalSystems == 0 ==> percentage == 0.0
  {
    listing := ScanRows(store);
    percentage := Percentage(listing.testedOkCount, listing.totalSystems);
  }

  /**
   * The page never shows fewer systems than the stats count: each distinct
   * normalised name has at least one listed row behind it.
   */
  lemma {:induction false} PageCountsAtLeastStats(rows: seq<Row>, norm: string -> string)
    ensures |KeysBy(rows, norm)| <= |KeptRows(rows)|
    decreases |rows|
  {
    if rows != [] {
      var init, last := rows[..|rows| - 1], rows[|rows| - 1];
      assert rows == init + [last];
      PageCountsAtLeastStats(init, norm);
      KeysBySnoc(init, last, norm);
      KeptRowsAppend(init, [last]);
      assert KeptRows([last]) == if PhpEmpty(last.name) then [] else [last];
      if Counted(last, norm) {
        assert |KeysBy(init, norm) + {norm(last.name)}| <= |KeysBy(init, norm)| + 1;
      }
    }
  }

  /** The stats the update endpoint returns never exceed the page's own count. */
  lemma SystemKeysAtMostListed(store: Store)
    ensures |SystemKeys(store)| <= |KeptRows(store)|
  {
    PageCountsAtLeastStats(store, Normalizer.NormalizeSystemName);
  }

  /** The characters the HTML id keeps: ASCII letters, digits, `_` and `-`. */
  predicate IsIdChar(c: char) {
    'a' <= c <= 'z' || 'A' <= c <= 'Z' || '0' <= c <= '9' || c == '_' || c == '-'
  }

  predicate IdOnly(s: string) {
    forall i :: 0 <= i < |s| ==> IsIdChar(s[i])
  }

  /** `preg_replace('/[^a-zA-Z0-9_\-]/', '_', s)`: every other character becomes `_`. */
  function ReplaceNonIdChars(s: string): (r: string)
    ensures |r| == |s|
    ensures IdOnly(r)
    ensures forall i :: 0 <= i < |s| && IsIdChar(s[i]) ==> r[i] == s[i]
    ensures forall i :: 0 <= i < |s| && !IsIdChar(s[i]) ==> r[i] == '_'
  {
    if s == [] then []
    else [if IsIdChar(s[0]) then s[0] else '_'] + ReplaceNonIdChars(s[1..])
  }

  /** Replacing changes a string exactly when it has a character outside the id set. */
  lemma ReplaceFixedPoint(s: string)
    ensures ReplaceNonIdChars(s) == s <==> IdOnly(s)
  {
    if !IdOnly(s) {
      var i :| 0 <= i < |s| && !IsIdChar(s[i]);
      assert ReplaceNonIdChars(s)[i] == '_';
    }
  }

  /** Replacing twice is replacing once. */
  lemma ReplaceIdempotent(s: string)
    ensures ReplaceNonIdChars(ReplaceNonIdChars(s)) == ReplaceNonIdChars(s)
  {
    ReplaceFixedPoint(ReplaceNonIdChars(s));
  }

  lemma TrimKeepsIdOnly(s: string, cut: set<char>)
    requires IdOnly(s)
    ensures IdOnly(Trim(s, cut))
  {
    var t := Trim(s, cut);
    forall i | 0 <= i < |t|
      ensures IsIdChar(t[i])
    {
      assert t[i] in t;
    }
  }

  /** What `md5()` returns: 32 lower-case hexadecimal digits. */
  predicate IsMd5Hex(d: string) {
    |d| == 32 && forall i :: 0 <= i < |d| ==> ('0' <= d[i] <= '9' || 'a' <= d[i] <= 'f')
  }

  const Fallback: string := "system_"

  /**
   * The id of a row's status cell: the name with non-id characters replaced
   * and `_` trimmed from both ends, or "system_" and the name's digest when
   * that leaves something `empty()` rejects. `digest` is the name's md5.
   */
  function SafeSystemId(name: string, digest: string): (r: string)
    requires IsMd5Hex(digest)
    ensures r != "" && IdOnly(r)
    ensures r[0] != '_' && r[|r| - 1] != '_'
    ensures r == Fallback + digest || (|r| <= |name| && !PhpEmpty(r))
    ensures var u := ReplaceNonIdChars(name);
      var (i, j) := TrimSpan(u, {'_'});
      r == if PhpEmpty(u[i..j]) then Fallback + digest else u[i..j]
  {
    IdOfReplaced(ReplaceNonIdChars(name), digest)
  }

  /** The trim and the fallback, applied to the name once its characters are replaced. */
  function IdOfReplaced(u: string, digest: string): (r: string)
    requires IsMd5Hex(digest) && IdOnly(u)
    ensures r != "" && IdOnly(r)
    ensures r[0] != '_' && r[|r| - 1] != '_'
    ensures r == Fallback + digest || (|r| <= |u| && !PhpEmpty(r))
    ensures var (i, j) := TrimSpan(u, {'_'});
      r == if PhpEmpty(u[i..j]) then Fallback + digest else u[i..j]
  {
    var t := Trim(u, {'_'});
    TrimKeepsIdOnly(u, {'_'});
    TrimAtSpan(u, {'_'});
    if PhpEmpty(t) then
      var r := Fallback + digest;
      assert r[|r| - 1] == digest[31];
      r
    else
      t
  }

  /** A name already made of id characters, with no `_` at either end, is its own id. */
  lemma SafeIdOfIdName(name: string, digest: string)
    requires IsMd5Hex(digest)
    requires IdOnly(name) && !PhpEmpty(name) && name[0] != '_' && name[|name| - 1] != '_'
    ensures SafeSystemId(name, digest) == name
  {
    ReplaceFixedPoint(name);
    assert Trimmed(name, {'_'});
  }

  /** A name with no letter, digit or `-` falls back to the digest. */
  lemma SafeIdFallback(name: string, digest: string)
    requires IsMd5Hex(digest)
    requires forall i :: 0 <= i < |name| ==> !IsIdChar(name[i]) || name[i] == '_'
    ensures SafeSystemId(name, digest) == Fallback + digest
  {
    var u := ReplaceNonIdChars(name);
    assert forall i :: 0 <= i < |u| ==> u[i] == '_';
    var t := Trim(u, {'_'});
    assert forall c :: c in u ==> c == '_';
    assert forall c :: c in t ==> c == '_';
  }

  /**
   * A name whose id part trims down to "0" also falls back, because `empty()`
   * rejects "0": "(0)" becomes "_0_", then "0".
   */
  lemma SafeIdZeroFallback(open: char, close: char, digest: string)
    requires IsMd5Hex(digest)
    requires !IsIdChar(open) && !IsIdChar(close)
    ensures SafeSystemId([open, '0', close], digest) == Fallback + digest
  {
    var name := [open, '0', close];
    var u := ReplaceNonIdChars(name);
    assert u == ['_', '0', '_'];
    UnderscoresAroundZero();
  }

  lemma UnderscoresAroundZero()
    ensures Trim(['_', '0', '_'], {'_'}) == "0"
  {
    assert ['_', '0', '_'] == ['_'] + ['0'] + ['_'];
    TrimAround(['_'], ['0'], ['_'], {'_'});
  }

  /** "Okänd" ("unknown"), as the UTF-8 bytes the page sends. */
  const Unknown: string := "Ok\U{C3}\U{A4}nd"

  /** The text of a status cell: the status, or "Okänd" when `empty()` rejects it. */
  function DisplayStatus(status: string): (shown: string)
    ensures !PhpEmpty(shown)
    ensures shown == status <==> !PhpEmpty(status)
    ensures PhpEmpty(status) ==> shown == Unknown
  {
    if PhpEmpty(status) then Unknown else status
  }
}
