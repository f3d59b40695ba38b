/**
 * The request handler of the status directory: one request either clears all
 * statuses, adds a system, removes a system or updates one system's status,
 * and the sheet is saved only when the request changed it.
 *
 * Lookups compare normalised names, and the first matching row (header
 * included) is the one acted on. Row 1 is protected only against removal.
 */
module StatusDirectory {
  import opened Optional
  import opened PhpStr
  import opened Normalizer
  import opened Sheet

  /** The query parameters `action`, `system` and `status`; `None` when absent. */
  datatype Request = Request(action: Option<string>, system: Option<string>, status: Option<string>)

  /** What a request did to the sheet, or why it did nothing. */
  datatype Outcome =
    | Cleared
    | Added(name: string)
    | AlreadyExists(name: string)
    | Removed(name: string)
    | HeaderRow
    | NotFound
    | EmptyName
    | Updated(name: string, status: string)
    | MissingInput
    | NoAction
  {
    /**
     * The outcomes that set the update flag, so that the sheet gets saved: the
     * four that report a change, and none of the refusals.
     */
    predicate Mutated()
      ensures Mutated() <==> !(AlreadyExists? || HeaderRow? || NotFound? || EmptyName? || MissingInput? || NoAction?)
    {
      Cleared? || Added? || Removed? || Updated?
    }

    /** The message the response carries when nothing goes wrong while saving; only an unknown action leaves it empty. */
    function Message(): (m: string)
      ensures m == "" <==> NoAction?
    {
      match this
      case Cleared => "All status cells have been cleared."
      case Added(n) => "System '" + n + "' has been added."
      case AlreadyExists(n) => "System '" + n + "' already exists."
      case Removed(n) => "System '" + n + "' has been removed."
      case HeaderRow => "Cannot remove header row."
      case NotFound => "System not found."
      case EmptyName => "System name cannot be empty."
      case Updated(n, s) => "Updating status for " + n + " to " + s + "."
      case MissingInput => "System or status not provided."
      case NoAction => ""
    }
  }

  /** The sheet after a request, together with what happened. */
  datatype Step = Step(store: Store, outcome: Outcome)

  /** The outcome of writing the workbook back; the writer itself is not modelled. */
  datatype SaveResult = Saved | SaveError(reason: string)

  /** The JSON object sent back: the flag, the message and the stats merged in. */
  datatype Response = Response(success: bool, message: string, stats: Stats)

  /** `removeRow`: row `i` disappears and every row below it moves up by one. */
  function RemoveRowAt(store: Store, i: nat): (r: Store)
    requires i < |store|
    ensures |r| == |store| - 1
    ensures forall j :: 0 <= j < i ==> r[j] == store[j]
    ensures forall j :: i <= j < |r| ==> r[j] == store[j + 1]
  {
    store[..i] + store[i + 1..]
  }

  /** `setCellValue` on column B of row `i`: that status changes, every other cell stays. */
  function SetStatusAt(store: Store, i: nat, status: string): (r: Store)
    requires i < |store|
    ensures |r| == |store|
    ensures r[i] == Row(store[i].name, status)
    ensures forall j :: 0 <= j < |store| && j != i ==> r[j] == store[j]
  {
    store[i := Row(store[i].name, status)]
  }

  /** The rows the lookup loops scan and what they compare: the normalised name. */
  predicate MatchesBy(r: Row, key: string, norm: string -> string) {
    norm(r.name) == key
  }

  /** The index of the first row whose normalised name is `key`, scanning from row 1. */
  function FindFirst(rows: seq<Row>, key: string, norm: string -> string): (r: Option<nat>)
    ensures r.Some? ==> r.value < |rows| && MatchesBy(rows[r.value], key, norm)
    ensures r.Some? ==> forall j :: 0 <= j < r.value ==> !MatchesBy(rows[j], key, norm)
    ensures r.None? <==> forall j :: 0 <= j < |rows| ==> !MatchesBy(rows[j], key, norm)
  {
    if rows == [] then None
    else if MatchesBy(rows[0], key, norm) then Some(0)
    else
      var rest := FindFirst(rows[1..], key, norm);
      assert forall j :: 1 <= j < |rows| ==> rows[j] == rows[1..][j - 1];
      match rest
      case None => None
      case Some(i) => Some(i + 1)
  }

  /** The lookup every action uses. */
  function FindRow(store: Store, key: string): Option<nat> {
    FindFirst(store, key, NormalizeSystemName)
  }

  /** A requested name that `empty()` rejects: missing, "" or "0". */
  predicate EmptyRequest(system: Option<string>) {
    system.None? || PhpEmpty(system.value)
  }

  /** `clear_status`: every status from row 2 on becomes "", row 1 and all names stay. */
  function ClearStatus(store: Store): (r: Store)
    ensures |r| == |store|
    ensures forall i :: 0 <= i < |r| ==> r[i].name == store[i].name
    ensures forall i :: 1 <= i < |r| ==> r[i].status == ""
    ensures |store| > 0 ==> r[0] == store[0]
  {
    if store == [] then [] else [store[0]] + BlankStatuses(store[1..])
  }

  /** The rows with every status set to "". */
  function BlankStatuses(rows: seq<Row>): (r: seq<Row>)
    ensures |r| == |rows|
    ensures forall i :: 0 <= i < |r| ==> r[i] == Row(rows[i].name, "")
  {
    if rows == [] then [] else [Row(rows[0].name, "")] + BlankStatuses(rows[1..])
  }

  /**
   * `add_system` with the already normalised name: rejected when `empty()`,
   * rejected when some row (header included) normalises to it, and otherwise
   * appended as a new row with an empty status.
   */
  function AddSystem(store: Store, system: Option<string>): (r: Step)
    ensures r.outcome.EmptyName? <==> EmptyRequest(system)
    ensures r.outcome.AlreadyExists? <==> !EmptyRequest(system) && FindRow(store, system.value).Some?
    ensures r.outcome.Added? <==>
              !EmptyRequest(system) && forall i :: 0 <= i < |store| ==> NormalizeSystemName(store[i].name) != system.value
    ensures r.outcome.Added? ==> r.outcome.name == system.value && r.store == store + [Row(system.value, "")]
    ensures r.outcome.AlreadyExists? ==> r.outcome.name == system.value
    ensures !r.outcome.Added? ==> r.store == store
  {
    if EmptyRequest(system) then Step(store, EmptyName)
    else
      var name := system.value;
      match FindRow(store, name)
      case Some(_) => Step(store, AlreadyExists(name))
      case None => Step(store + [Row(name, "")], Added(name))
  }

  /**
   * `remove_system` with the already normalised name: the first matching row
   * is deleted and the rows below it move up, unless that row is row 1.
   */
  function RemoveSystem(store: Store, system: Option<string>): (r: Step)
    ensures r.outcome.EmptyName? <==> EmptyRequest(system)
    ensures r.outcome.NotFound? <==> !EmptyRequest(system) && FindRow(store, system.value).None?
    ensures r.outcome.HeaderRow? <==> !EmptyRequest(system) && FindRow(store, system.value) == Some(0)
    ensures r.outcome.Removed? <==> !EmptyRequest(system) && FindRow(store, system.value).Some?
                                    && FindRow(store, system.value).value >= 1
    ensures r.outcome.Removed? ==>
              var i := FindRow(store, system.value).value;
              && r.outcome.name == system.value
              && r.store == RemoveRowAt(store, i)
    ensures !r.outcome.Removed? ==> r.store == store
  {
    if EmptyRequest(system) then Step(store, EmptyName)
    else
      var name := system.value;
      match FindRow(store, name)
      case None => Step(store, NotFound)
      case Some(i) =>
        if i == 0 then Step(store, HeaderRow)
        else Step(RemoveRowAt(store, i), Removed(name))
  }

  /**
   * The update path with the already normalised name and status: the first
   * matching row, header included, gets the new status; nothing else changes.
   */
  function UpdateStatus(store: Store, system: Option<string>, status: Option<string>): (r: Step)
    ensures r.outcome.MissingInput? <==> EmptyRequest(system) || status.None?
    ensures r.outcome.NotFound? <==> !EmptyRequest(system) && status.Some? && FindRow(store, system.value).None?
    ensures r.outcome.Updated? <==> !EmptyRequest(system) && status.Some? && FindRow(store, system.value).Some?
    ensures r.outcome.Updated? ==>
              var i := FindRow(store, system.value).value;
              && r.outcome == Updated(system.value, status.value)
              && r.store == SetStatusAt(store, i, status.value)
    ensures !r.outcome.Updated? ==> r.store == store
  {
    if EmptyRequest(system) || status.None? then Step(store, MissingInput)
    else
      var name := system.value;
      match FindRow(store, name)
      case None => Step(store, NotFound)
      case Some(i) => Step(SetStatusAt(store, i, status.value), Updated(name, status.value))
  }

  /**
   * One request: `system` and `status` are normalised first, then `action`
   * selects the operation; an unknown action does nothing and a missing one
   * means a status update.
   */
  function Dispatch(store: Store, req: Request): (r: Step)
    ensures !r.outcome.Mutated() ==> r.store == store
    ensures req.action == Some("clear_status") ==> r == Step(ClearStatus(store), Cleared)
    ensures req.action == Some("add_system") ==> r == AddSystem(store, req.system.Map(NormalizeSystemName))
    ensures req.action == Some("remove_system") ==> r == RemoveSystem(store, req.system.Map(NormalizeSystemName))
    ensures req.action.None? ==>
              r == UpdateStatus(store, req.system.Map(NormalizeSystemName), req.status.Map(NormalizeSystemName))
    ensures req.action == Some("clear_status") <==> r.outcome.Cleared?
    ensures req.action == Some("add_system") ==> r.outcome.EmptyName? || r.outcome.AlreadyExists? || r.outcome.Added?
    ensures req.action == Some("remove_system") ==>
              r.outcome.EmptyName? || r.outcome.NotFound? || r.outcome.HeaderRow? || r.outcome.Removed?
    ensures req.action.None? ==> r.outcome.MissingInput? || r.outcome.NotFound? || r.outcome.Updated?
    ensures r.outcome.MissingInput? || r.outcome.Updated? ==> req.action.None?
    ensures r.outcome.NotFound? ==> req.action.None? || req.action == Some("remove_system")
    ensures r.outcome.Added? || r.outcome.Removed? ==>
              req.system.Some? && r.outcome.name == NormalizeSystemName(req.system.value)
    ensures r.outcome.Updated? ==>
              && req.system.Some? && req.status.Some?
              && r.outcome == Updated(NormalizeSystemName(req.system.value), NormalizeSystemName(req.status.value))
    ensures r.outcome.NoAction? <==>
              req.action.Some? && req.action.value !in {"clear_status", "add_system", "remove_system"}
  {
    var system := req.system.Map(NormalizeSystemName);
    var status := req.status.Map(NormalizeSystemName);
    match req.action
    case None => UpdateStatus(store, system, status)
    case Some(action) =>
      if action == "clear_status" then Step(ClearStatus(store), Cleared)
      else if action == "add_system" then AddSystem(store, system)
      else if action == "remove_system" then RemoveSystem(store, system)
      else Step(store, NoAction)
  }

  /**
   * The whole request: dispatch, save when the sheet was changed, and answer
   * with the stats of the sheet as it now stands in memory. `saveResult` is
   * what writing the workbook would produce. Returns the sheet as it ends up
   * on disk together with the response.
   */
  method HandleRequest(store: Store, req: Request, saveResult: SaveResult) returns (persisted: Store, resp: Response)
    ensures var step := Dispatch(store, req);
      && (resp.success <==> step.outcome.Mutated() && saveResult.Saved?)
      && (persisted == if resp.success then step.store else store)
      && resp.message == (if step.outcome.Mutated() && saveResult.SaveError?
                          then "Error saving file: " + saveResult.reason
                          else step.outcome.Message())
      && resp.stats.totalSystems == |SystemKeys(step.store)|
      && resp.stats.testedOkCount == |TestedOkKeys(step.store)|
      && resp.stats.percentageTestedOk == Percentage(resp.stats.testedOkCount, resp.stats.totalSystems)
  {
    var step := Dispatch(store, req);
    var success := false;
    var message := step.outcome.Message();
    persisted := store;
    if step.outcome.Mutated() {
      match saveResult
      case Saved =>
        success := true;
        persisted := step.store;
      case SaveError(reason) =>
        success := false;
        message := "Error saving file: " + reason;
    }
    var stats := GetSystemStats(step.store);
    resp := Response(success, message, stats);
  }

  // Properties of the operations, stated over the whole sheet.

  /** Two sheets whose rows carry the same names hold the same systems. */
  lemma KeysBySameNames(a: seq<Row>, b: seq<Row>, norm: string -> string)
    requires |a| == |b|
    requires forall i :: 0 <= i < |a| ==> a[i].name == b[i].name
    ensures KeysBy(a, norm) == KeysBy(b, norm)
  {
    forall k | k in KeysBy(a, norm)
      ensures k in KeysBy(b, norm)
    {
      var r :| r in a && Counted(r, norm) && norm(r.name) == k;
      var i :| 0 <= i < |a| && a[i] == r;
      assert b[i] in b && Counted(b[i], norm);
    }
    forall k | k in KeysBy(b, norm)
      ensures k in KeysBy(a, norm)
    {
      var r :| r in b && Counted(r, norm) && norm(r.name) == k;
      var i :| 0 <= i < |b| && b[i] == r;
      assert a[i] in a && Counted(a[i], norm);
    }
  }

  /** When no status below row 1 passes, at most the header's system counts as tested. */
  lemma TestedKeysOnlyHeader(rows: seq<Row>, norm: string -> string, tested: string -> bool)
    requires forall i :: 1 <= i < |rows| ==> !tested(rows[i].status)
    ensures rows == [] ==> TestedKeysBy(rows, norm, tested) == {}
    ensures rows != [] ==> TestedKeysBy(rows, norm, tested) <= {norm(rows[0].name)}
    ensures rows != [] && !tested(rows[0].status) ==> TestedKeysBy(rows, norm, tested) == {}
  {
    forall k | k in TestedKeysBy(rows, norm, tested)
      ensures rows != [] && k == norm(rows[0].name) && tested(rows[0].status)
    {
      var i :| 0 <= i < |rows| && FirstOfKey(rows, i, norm) && tested(rows[i].status) && norm(rows[i].name) == k;
    }
  }

  /** Clearing keeps every system and leaves at most the header counted as tested. */
  lemma ClearKeepsSystems(store: Store)
    ensures SystemKeys(ClearStatus(store)) == SystemKeys(store)
    ensures store == [] ==> TestedOkKeys(ClearStatus(store)) == {}
    ensures store != [] ==> TestedOkKeys(ClearStatus(store)) <= {NormalizeSystemName(store[0].name)}
    ensures store != [] && !IsTestedOk(store[0].status) ==> TestedOkKeys(ClearStatus(store)) == {}
  {
    var r := ClearStatus(store);
    KeysBySameNames(r, store, NormalizeSystemName);
    assert !IsTestedOk("");
    TestedKeysOnlyHeader(r, NormalizeSystemName, IsTestedOk);
  }

  /** Clearing twice clears nothing more. */
  lemma ClearIdempotent(store: Store)
    ensures ClearStatus(ClearStatus(store)) == ClearStatus(store)
  {
  }

  /** A normaliser that maps the PHP-empty names to themselves. */
  predicate KeepsEmpty(norm: string -> string) {
    norm("") == "" && norm("0") == "0"
  }

  /** "" and "0" normalise to themselves, so a row named like that never matches a non-empty request. */
  lemma NormalizeKeepsEmpty()
    ensures KeepsEmpty(NormalizeSystemName)
  {
    assert UrlDecode("") == "" && UrlDecode("0") == "0";
    NormalizeWithoutSpaces("", "");
    NormalizeWithoutSpaces("0", "0");
  }

  /** The row a lookup finds is the first row of its key, so it is the one the stats read. */
  lemma FoundIsFirstOfKey(rows: seq<Row>, key: string, norm: string -> string)
    requires KeepsEmpty(norm) && !PhpEmpty(key) && FindFirst(rows, key, norm).Some?
    ensures FirstOfKey(rows, FindFirst(rows, key, norm).value, norm)
  {
    NewKeyIsFirst(rows, FindFirst(rows, key, norm).value, norm);
  }

  /** A countable row whose key no earlier row carries is the first of its key. */
  lemma NewKeyIsFirst(rows: seq<Row>, i: nat, norm: string -> string)
    requires i < |rows| && Counted(rows[i], norm)
    requires forall j :: 0 <= j < i ==> norm(rows[j].name) != norm(rows[i].name)
    ensures FirstOfKey(rows, i, norm)
  {
    forall r | r in rows[..i]
      ensures norm(r.name) != norm(rows[i].name)
    {
      var j :| 0 <= j < i && rows[..i][j] == r;
      assert rows[j] == r;
    }
  }

  /** Appending a row with a new key makes the lookup find that row. */
  lemma FindAppended(rows: seq<Row>, row: Row, key: string, norm: string -> string)
    requires forall j :: 0 <= j < |rows| ==> !MatchesBy(rows[j], key, norm)
    requires MatchesBy(row, key, norm)
    ensures FindFirst(rows + [row], key, norm) == Some(|rows|)
  {
    var all := rows + [row];
    assert forall j :: 0 <= j < |rows| ==> all[j] == rows[j];
    assert all[|rows|] == row;
  }

  /** Appending a row that does not match leaves a failed lookup failing. */
  lemma FindAppendedOther(rows: seq<Row>, row: Row, key: string, norm: string -> string)
    requires forall j :: 0 <= j < |rows| ==> !MatchesBy(rows[j], key, norm)
    requires !MatchesBy(row, key, norm)
    ensures FindFirst(rows + [row], key, norm).None?
  {
    var all := rows + [row];
    assert forall j :: 0 <= j < |rows| ==> all[j] == rows[j];
    assert all[|rows|] == row;
  }

  /**
   * Adding a plain name that is new to the sheet adds exactly one system, which
   * is not tested, and adding the same name again is rejected as a duplicate.
   */
  lemma AddPlainName(store: Store, raw: string)
    requires PlainName(raw)
    ensures var key := NormalizeSystemName(raw);
      var r := AddSystem(store, Some(key));
      r.outcome.Added? ==>
        && SystemKeys(r.store) == SystemKeys(store) + {key}
        && key !in SystemKeys(store)
        && |SystemKeys(r.store)| == |SystemKeys(store)| + 1
        && |TestedOkKeys(r.store)| == |TestedOkKeys(store)|
        && FindRow(r.store, key) == Some(|store|)
        && AddSystem(r.store, Some(key)).outcome == AlreadyExists(key)
  {
    var key := NormalizeSystemName(raw);
    var r := AddSystem(store, Some(key));
    if r.outcome.Added? {
      NormalizeIdempotent(raw);
      var row := Row(key, "");
      assert NormalizeSystemName(row.name) == key;
      assert !IsTestedOk("");
      CountStep(store, row, NormalizeSystemName, IsTestedOk);
      forall x | x in store
        ensures NormalizeSystemName(x.name) != key
      {
        var j :| 0 <= j < |store| && store[j] == x;
      }
      FindAppended(store, row, key, NormalizeSystemName);
    }
  }

  /**
   * A name whose stored form is not its own key slips past the duplicate check:
   * after it is added, adding it again adds a second row with the same name.
   */
  lemma AddedTwiceWhenNotFixed(store: Store, key: string)
    requires !PhpEmpty(key) && NormalizeSystemName(key) != key
    requires forall i :: 0 <= i < |store| ==> NormalizeSystemName(store[i].name) != key
    ensures var first := AddSystem(store, Some(key));
      && first == Step(store + [Row(key, "")], Added(key))
      && AddSystem(first.store, Some(key)) == Step(first.store + [Row(key, "")], Added(key))
  {
    FindAppendedOther(store, Row(key, ""), key, NormalizeSystemName);
  }

  /**
   * "%2541" is stored as "%41", whose own key is "A", so adding "%2541" a
   * second time adds a second "%41" row.
   */
  lemma DoubleEncodedNameAddedTwice(store: Store)
    requires forall i :: 0 <= i < |store| ==> NormalizeSystemName(store[i].name) != "%41"
    ensures var first := AddSystem(store, Some(NormalizeSystemName("%2541")));
      && first == Step(store + [Row("%41", "")], Added("%41"))
      && AddSystem(first.store, Some(NormalizeSystemName("%2541"))) == Step(first.store + [Row("%41", "")], Added("%41"))
  {
    DoubleEncodedA();
    AddedTwiceWhenNotFixed(store, "%41");
  }

  /** Removing the only row of a key drops that system and nothing else. */
  lemma RemoveUniqueName(store: Store, key: string)
    requires forall i, j :: 0 <= i < j < |store| && NormalizeSystemName(store[i].name) == key ==> NormalizeSystemName(store[j].name) != key
    ensures var r := RemoveSystem(store, Some(key));
      r.outcome.Removed? ==>
        && FindRow(r.store, key).None?
        && SystemKeys(r.store) == SystemKeys(store) - {key}
        && |SystemKeys(r.store)| == |SystemKeys(store)| - 1
  {
    if !PhpEmpty(key) && FindRow(store, key).Some? {
      NormalizeKeepsEmpty();
      RemoveFound(store, key, NormalizeSystemName);
    }
  }

  /** Removing the first row of a key that no other row carries. */
  lemma RemoveFound(rows: seq<Row>, key: string, norm: string -> string)
    requires KeepsEmpty(norm) && !PhpEmpty(key) && FindFirst(rows, key, norm).Some?
    requires forall i, j :: 0 <= i < j < |rows| && norm(rows[i].name) == key ==> norm(rows[j].name) != key
    ensures var rest := RemoveRowAt(rows, FindFirst(rows, key, norm).value);
      && FindFirst(rest, key, norm).None?
      && KeysBy(rest, norm) == KeysBy(rows, norm) - {key}
      && |KeysBy(rest, norm)| == |KeysBy(rows, norm)| - 1
  {
    var i := FindFirst(rows, key, norm).value;
    FoundIsFirstOfKey(rows, key, norm);
    assert forall j :: 0 <= j < |rows| && j != i ==> norm(rows[j].name) != key;
    KeysByRemoveUnique(rows, i, norm);
    assert rows[i] in rows;
  }

  /** Removing a row whose key no other row carries removes exactly that key. */
  lemma KeysByRemoveUnique(rows: seq<Row>, i: nat, norm: string -> string)
    requires i < |rows|
    requires forall j :: 0 <= j < |rows| && j != i ==> norm(rows[j].name) != norm(rows[i].name)
    ensures KeysBy(RemoveRowAt(rows, i), norm) == KeysBy(rows, norm) - {norm(rows[i].name)}
    ensures forall j :: 0 <= j < |rows| - 1 ==> norm(RemoveRowAt(rows, i)[j].name) != norm(rows[i].name)
  {
    var rest := RemoveRowAt(rows, i);
    var key := norm(rows[i].name);
    forall k | k in KeysBy(rest, norm)
      ensures k in KeysBy(rows, norm) - {key}
    {
      var x :| x in rest && Counted(x, norm) && norm(x.name) == k;
      var j :| 0 <= j < |rest| && rest[j] == x;
      var src := if j < i then j else j + 1;
      assert rows[src] == x && rows[src] in rows;
    }
    forall k | k in KeysBy(rows, norm) - {key}
      ensures k in KeysBy(rest, norm)
    {
      var x :| x in rows && Counted(x, norm) && norm(x.name) == k;
      var j :| 0 <= j < |rows| && rows[j] == x;
      var dst := if j < i then j else j - 1;
      assert rest[dst] == x && rest[dst] in rest;
    }
    forall j | 0 <= j < |rest|
      ensures norm(rest[j].name) != key
    {
      var src := if j < i then j else j + 1;
      assert rest[j] == rows[src];
    }
  }

  /**
   * An update keeps every system, the updated system counts as tested exactly
   * when the new status does, and every other system keeps its tested status.
   */
  lemma UpdateSetsTested(store: Store, key: string, status: string)
    ensures var r := UpdateStatus(store, Some(key), Some(status));
      r.outcome.Updated? ==>
        && SystemKeys(r.store) == SystemKeys(store)
        && key in SystemKeys(r.store)
        && (key in TestedOkKeys(r.store) <==> IsTestedOk(status))
        && TestedOkKeys(r.store) - {key} == TestedOkKeys(store) - {key}
        && (key !in TestedOkKeys(store) && IsTestedOk(status) ==>
              |TestedOkKeys(r.store)| == |TestedOkKeys(store)| + 1)
  {
    if !PhpEmpty(key) && FindRow(store, key).Some? {
      NormalizeKeepsEmpty();
      UpdateFound(store, key, status, NormalizeSystemName, IsTestedOk);
      var r := UpdateStatus(store, Some(key), Some(status));
      AddOneKey(TestedOkKeys(store), TestedOkKeys(r.store), key);
    }
  }

  /** Two sets that agree away from `key`, which only the second holds, differ in size by one. */
  lemma AddOneKey(before: set<string>, after: set<string>, key: string)
    requires after - {key} == before - {key}
    ensures key !in before && key in after ==> |after| == |before| + 1
  {
    if key !in before && key in after {
      forall x
        ensures x in after <==> x in before + {key}
      {
        if x != key {
          assert x in after <==> x in after - {key};
          assert x in before <==> x in before - {key};
        }
      }
      assert after == before + {key};
    }
  }

  /** Setting the status of the row a lookup finds. */
  lemma UpdateFound(rows: seq<Row>, key: string, status: string, norm: string -> string, tested: string -> bool)
    requires KeepsEmpty(norm) && !PhpEmpty(key) && FindFirst(rows, key, norm).Some?
    ensures var after := SetStatusAt(rows, FindFirst(rows, key, norm).value, status);
      && KeysBy(after, norm) == KeysBy(rows, norm)
      && key in KeysBy(after, norm)
      && (key in TestedKeysBy(after, norm, tested) <==> tested(status))
      && TestedKeysBy(after, norm, tested) - {key} == TestedKeysBy(rows, norm, tested) - {key}
  {
    var i := FindFirst(rows, key, norm).value;
    FoundIsFirstOfKey(rows, key, norm);
    var after := SetStatusAt(rows, i, status);
    KeysBySameNames(after, rows, norm);
    TestedAfterSetStatus(rows, i, status, norm, tested);
    OtherKeysKeepTested(rows, i, status, norm, tested);
  }

  /** Writing one row's status changes the tested status of no other key. */
  lemma OtherKeysKeepTested(rows: seq<Row>, i: nat, status: string, norm: string -> string, tested: string -> bool)
    requires i < |rows|
    ensures var key := norm(rows[i].name);
      TestedKeysBy(SetStatusAt(rows, i, status), norm, tested) - {key} == TestedKeysBy(rows, norm, tested) - {key}
  {
    var after := SetStatusAt(rows, i, status);
    var key := norm(rows[i].name);
    forall idx | 0 <= idx < |rows|
      ensures FirstOfKey(after, idx, norm) == FirstOfKey(rows, idx, norm)
    {
      KeysBySameNames(after[..idx], rows[..idx], norm);
    }
    forall k | k in TestedKeysBy(after, norm, tested) - {key}
      ensures k in TestedKeysBy(rows, norm, tested)
    {
      var idx :| 0 <= idx < |after| && FirstOfKey(after, idx, norm) && tested(after[idx].status) && norm(after[idx].name) == k;
      assert idx != i && after[idx] == rows[idx];
    }
    forall k | k in TestedKeysBy(rows, norm, tested) - {key}
      ensures k in TestedKeysBy(after, norm, tested)
    {
      var idx :| 0 <= idx < |rows| && FirstOfKey(rows, idx, norm) && tested(rows[idx].status) && norm(rows[idx].name) == k;
      assert idx != i && after[idx] == rows[idx];
    }
  }

  /** Setting the status of the first row of a key decides whether that key is tested. */
  lemma TestedAfterSetStatus(rows: seq<Row>, i: nat, status: string, norm: string -> string, tested: string -> bool)
    requires i < |rows| && FirstOfKey(rows, i, norm)
    ensures var after := SetStatusAt(rows, i, status);
      && FirstOfKey(after, i, norm)
      && norm(rows[i].name) in KeysBy(after, norm)
      && (norm(rows[i].name) in TestedKeysBy(after, norm, tested) <==> tested(status))
  {
    var after := SetStatusAt(rows, i, status);
    var key := norm(rows[i].name);
    assert after[..i] == rows[..i];
    assert after[i] in after;
    if key in TestedKeysBy(after, norm, tested) {
      var j :| 0 <= j < |after| && FirstOfKey(after, j, norm) && tested(after[j].status) && norm(after[j].name) == key;
      FirstOfKeyUnique(after, i, j, norm);
    }
  }

  /** A key has one first row. */
  lemma FirstOfKeyUnique(rows: seq<Row>, i: nat, j: nat, norm: string -> string)
    requires i < |rows| && j < |rows|
    requires FirstOfKey(rows, i, norm) && FirstOfKey(rows, j, norm)
    requires norm(rows[i].name) == norm(rows[j].name)
    ensures i == j
  {
    if i < j {
      EarlierKeyIsSeen(rows, i, j, norm);
    } else if j < i {
      EarlierKeyIsSeen(rows, j, i, norm);
    }
  }

  /** A counted row's key is among the keys of every longer prefix. */
  lemma EarlierKeyIsSeen(rows: seq<Row>, i: nat, j: nat, norm: string -> string)
    requires i < j <= |rows| && Counted(rows[i], norm)
    ensures norm(rows[i].name) in KeysBy(rows[..j], norm)
  {
    assert rows[..j][i] == rows[i];
  }

  /** The header's system is counted like any other when its name is not empty. */
  lemma HeaderIsCounted(store: Store)
    requires store != [] && Counted(store[0], NormalizeSystemName)
    ensures NormalizeSystemName(store[0].name) in SystemKeys(store)
  {
    assert store[0] in store;
  }

  /** Three countable rows with distinct keys: each is the first of its key. */
  lemma ThreeDistinctRows(rows: seq<Row>, norm: string -> string, tested: string -> bool)
    requires |rows| == 3
    requires forall i :: 0 <= i < 3 ==> Counted(rows[i], norm)
    requires norm(rows[0].name) != norm(rows[1].name) && norm(rows[0].name) != norm(rows[2].name)
             && norm(rows[1].name) != norm(rows[2].name)
    ensures KeysBy(rows, norm) == {norm(rows[0].name), norm(rows[1].name), norm(rows[2].name)}
    ensures |KeysBy(rows, norm)| == 3
    ensures forall i :: 0 <= i < 3 ==> (norm(rows[i].name) in TestedKeysBy(rows, norm, tested) <==> tested(rows[i].status))
  {
    assert rows[0] in rows && rows[1] in rows && rows[2] in rows;
    var k0, k1, k2 := norm(rows[0].name), norm(rows[1].name), norm(rows[2].name);
    NewKeyIsFirst(rows, 0, norm);
    NewKeyIsFirst(rows, 1, norm);
    NewKeyIsFirst(rows, 2, norm);
    forall i | 0 <= i < 3 && norm(rows[i].name) in TestedKeysBy(rows, norm, tested)
      ensures tested(rows[i].status)
    {
      var j :| 0 <= j < |rows| && FirstOfKey(rows, j, norm) && tested(rows[j].status) && norm(rows[j].name) == norm(rows[i].name);
      assert j == i;
    }
    assert {k0, k1} + {k2} == {k0, k1, k2};
  }

  /**
   * A header above one system tested OK and one without status, as in
   * "System" / ("Sys A", "Testad OK") / ("Sys B", ""): the header is counted
   * with the two systems, so the stats report three systems, one of them tested.
   */
  lemma HeaderCountedScenario(header: string, headerStatus: string, a: string, b: string)
    requires NormalizeSystemName(header) == header && NormalizeSystemName(a) == a && NormalizeSystemName(b) == b
    requires !PhpEmpty(header) && !PhpEmpty(a) && !PhpEmpty(b)
    requires header != a && header != b && a != b
    requires !IsTestedOk(headerStatus)
    ensures var store := [Row(header, headerStatus), Row(a, TestedOk), Row(b, "")];
      && SystemKeys(store) == {header, a, b}
      && |SystemKeys(store)| == 3
      && TestedOkKeys(store) == {a}
  {
    TestedOkPasses();
    ThreeRowScenario(header, headerStatus, a, b, TestedOk, NormalizeSystemName, IsTestedOk);
  }

  lemma ThreeRowScenario(header: string, headerStatus: string, a: string, b: string, ok: string,
                         norm: string -> string, tested: string -> bool)
    requires norm(header) == header && norm(a) == a && norm(b) == b
    requires !PhpEmpty(header) && !PhpEmpty(a) && !PhpEmpty(b)
    requires header != a && header != b && a != b
    requires !tested(headerStatus) && tested(ok) && !tested("")
    ensures var rows := [Row(header, headerStatus), Row(a, ok), Row(b, "")];
      && KeysBy(rows, norm) == {header, a, b}
      && |KeysBy(rows, norm)| == 3
      && TestedKeysBy(rows, norm, tested) == {a}
  {
    var rows := [Row(header, headerStatus), Row(a, ok), Row(b, "")];
    ThreeDistinctRows(rows, norm, tested);
    TestedKeysAreKeys(rows, norm, tested);
    assert rows[1].name == a && rows[1].status == ok;
  }
}
