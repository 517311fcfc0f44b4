/** The per-mode frame verifier of simulink/verify_all_modes.py: its row loop and its report. */
module ModeReport {
  import opened Wrappers
  import opened Sequences
  import opened ReplayGuard

  const SIGNATURE_BIAS := 100

  const VOLTAGE_THRESHOLD := 100.0

  /** Modes 0 to 11 have a description; asking for another one's raises. */
  const MODE_COUNT := 12

  /** A row of the input, its fields already converted to numbers. */
  datatype Row = Row(
    mode: int, time: real, nonce: int, signature: int, counter: int, voltage: real,
    modelAuth: int, modelReplay: int, modelInjection: int, modelSoc: real)

  datatype Verified = Verified(
    mode: int, time: real, pySignatureOk: int, pyReplay: int, pyInjection: int, pyAuth: int,
    modelAuth: int, modelReplay: int, modelInjection: int, modelSoc: real)

  datatype ReportRow = ReportRow(
    mode: int, pyAuth: int, modelAuth: int, pyReplay: int, modelReplay: int, pyInjection: int, modelInjection: int,
    agree: bool)

  datatype ReportError = NoRows | UnknownMode

  // ---------- Verifying rows ----------

  /** Before each row, a guard standing at 0 is set to -1. */
  function Rearmed(last: int): int {
    if last == 0 then -1 else last
  }

  function OfMode(rows: seq<Row>, mode: int): seq<Row> {
    if rows == [] then []
    else if Last(rows).mode == mode then OfMode(Init(rows), mode) + [Last(rows)]
    else OfMode(Init(rows), mode)
  }

  /** Where a mode's guard stands after its rows; a new guard stands at 0. */
  function ModeGuard(rows: seq<Row>): int {
    if rows == [] then 0 else LastAfter(Rearmed(ModeGuard(Init(rows))), Last(rows).counter)
  }

  function Bit(b: bool): int {
    if b then 1 else 0
  }

  function Checked(row: Row, flagged: bool): Verified {
    var ok := row.signature == row.nonce + SIGNATURE_BIAS;
    Verified(row.mode, row.time, Bit(ok), Bit(flagged), Bit(row.voltage > VOLTAGE_THRESHOLD), Bit(ok),
             row.modelAuth, row.modelReplay, row.modelInjection, row.modelSoc)
  }

  /** A row is flagged when its counter is not above the mode's guard, re-armed. */
  function VerifiedRows(rows: seq<Row>): (out: seq<Verified>)
    ensures |out| == |rows|
  {
    if rows == [] then []
    else
      var row := Last(rows);
      var guard := Rearmed(ModeGuard(OfMode(Init(rows), row.mode)));
      VerifiedRows(Init(rows)) + [Checked(row, row.counter <= guard)]
  }

  function OutOfMode(out: seq<Verified>, mode: int): seq<Verified> {
    if out == [] then []
    else if Last(out).mode == mode then OutOfMode(Init(out), mode) + [Last(out)]
    else OutOfMode(Init(out), mode)
  }

  function Modes(rows: seq<Row>): set<int> {
    set row | row in rows :: row.mode
  }

  /** The body of the row loop, on the guard of the row's mode. */
  method VerifyRow(replay: ReplayProtection, row: Row) returns (v: Verified)
    modifies replay
    ensures replay.lastCounter == LastAfter(Rearmed(old(replay.lastCounter)), row.counter)
    ensures v == Checked(row, row.counter <= Rearmed(old(replay.lastCounter)))
  {
    if replay.lastCounter == 0 {
      replay.lastCounter := -1;
    }
    var signatureOk := row.signature == row.nonce + SIGNATURE_BIAS;
    var replayOk := replay.Validate(row.counter);
    var injection := row.voltage > VOLTAGE_THRESHOLD;
    var pyAuth := if signatureOk then 1 else 0;
    v := Verified(row.mode, row.time, if signatureOk then 1 else 0, if replayOk then 0 else 1, if injection then 1 else 0,
                  pyAuth, row.modelAuth, row.modelReplay, row.modelInjection, row.modelSoc);
  }

  /** `mode_results.setdefault(mode, ReplayProtection())` */
  method GuardOf(guards: map<int, ReplayProtection>, mode: int) returns (all: map<int, ReplayProtection>, replay: ReplayProtection)
    ensures mode in all && all[mode] == replay
    ensures mode in guards ==> all == guards
    ensures mode !in guards ==> all == guards[mode := replay] && fresh(replay) && replay.lastCounter == 0
  {
    all := guards;
    if mode !in all {
      var guard := new ReplayProtection();
      all := all[mode := guard];
    }
    replay := all[mode];
  }

  /** Each mode met so far has a guard object of its own, standing where that mode's rows put it. */
  ghost predicate Tracks(guards: map<int, ReplayProtection>, rows: seq<Row>)
    reads guards.Values
  {
    && guards.Keys == Modes(rows)
    && (forall m :: m in guards ==> guards[m].lastCounter == ModeGuard(OfMode(rows, m)))
    && (forall m, n :: m in guards && n in guards && m != n ==> guards[m] != guards[n])
  }

  /** One more row moves its own mode's guard, and no other. */
  lemma {:induction false} ModeStep(before: seq<Row>, row: Row)
    ensures Modes(before + [row]) == Modes(before) + {row.mode}
    ensures forall m :: m != row.mode ==> OfMode(before + [row], m) == OfMode(before, m)
    ensures ModeGuard(OfMode(before + [row], row.mode)) == LastAfter(Rearmed(ModeGuard(OfMode(before, row.mode))), row.counter)
  {
    var rows := before + [row];
    assert Init(rows) == before && Last(rows) == row;
    assert forall r :: r in rows <==> r in before || r == row;
    assert Init(OfMode(rows, row.mode)) == OfMode(before, row.mode);
  }

  lemma {:induction false} NoneOfMode(rows: seq<Row>, mode: int)
    requires mode !in Modes(rows)
    ensures OfMode(rows, mode) == []
  {
    if rows != [] {
      assert Last(rows) in rows;
      assert forall row :: row in Init(rows) ==> row in rows;
      NoneOfMode(Init(rows), mode);
    }
  }

  method VerifyNext(guards: map<int, ReplayProtection>, row: Row, ghost before: seq<Row>)
    returns (all: map<int, ReplayProtection>, v: Verified)
    requires Tracks(guards, before)
    modifies guards.Values
    ensures Tracks(all, before + [row])
    ensures forall m :: m in all ==> all[m] in guards.Values || fresh(all[m])
    ensures v == Checked(row, row.counter <= Rearmed(ModeGuard(OfMode(before, row.mode))))
  {
    if row.mode !in guards {
      NoneOfMode(before, row.mode);
    }
    var replay;
    all, replay := GuardOf(guards, row.mode);
    v := VerifyRow(replay, row);
    ModeStep(before, row);
    forall m | m in all && m != row.mode ensures all[m].lastCounter == ModeGuard(OfMode(before + [row], m)) {
      assert all[m] == guards[m] != replay;
    }
  }

  lemma {:induction false} VerifiedStep(rows: seq<Row>, i: nat)
    requires i < |rows|
    ensures VerifiedRows(rows[..i + 1]) == VerifiedRows(rows[..i]) +
                                           [Checked(rows[i], rows[i].counter <= Rearmed(ModeGuard(OfMode(rows[..i], rows[i].mode))))]
  {
    assert Init(rows[..i + 1]) == rows[..i];
  }

  lemma {:induction false} PrefixGrows(rows: seq<Row>, i: nat)
    requires i < |rows|
    ensures rows[..i + 1] == rows[..i] + [rows[i]]
  {
  }

  /** The loop over all rows. */
  method VerifyRows(rows: seq<Row>) returns (out: seq<Verified>)
    ensures out == VerifiedRows(rows)
  {
    var guards: map<int, ReplayProtection> := map[];
    out := [];
    for i := 0 to |rows|
      invariant out == VerifiedRows(rows[..i]) && Tracks(guards, rows[..i])
      invariant forall m :: m in guards ==> fresh(guards[m])
    {
      PrefixGrows(rows, i);
      VerifiedStep(rows, i);
      var v;
      guards, v := VerifyNext(guards, rows[i], rows[..i]);
      out := out + [v];
    }
    assert rows[..|rows|] == rows;
  }

  // ---------- What the replay flags mean ----------

  /** The mode's guard is the largest positive counter met, or, as long as there is none, 0 or -1. */
  lemma {:induction false} GuardIsLargestPositive(rows: seq<Row>)
    ensures var g := ModeGuard(rows);
            && g >= -1
            && (forall row :: row in rows && row.counter > 0 ==> row.counter <= g)
            && (g > 0 ==> exists row :: row in rows && row.counter == g)
  {
    if rows != [] {
      var before, row := Init(rows), Last(rows);
      GuardIsLargestPositive(before);
      assert forall r :: r in rows <==> r in before || r == row;
      if ModeGuard(rows) > 0 && row.counter != ModeGuard(rows) {
        var r :| r in before && r.counter == ModeGuard(before);
        assert r in rows;
      }
    }
  }

  lemma {:induction false} VerifiedAt(rows: seq<Row>, i: nat)
    requires i < |rows|
    ensures VerifiedRows(rows)[i] ==
            Checked(rows[i], rows[i].counter <= Rearmed(ModeGuard(OfMode(rows[..i], rows[i].mode))))
    decreases |rows|
  {
    if i < |rows| - 1 {
      VerifiedAt(Init(rows), i);
      assert Init(rows)[..i] == rows[..i];
    } else {
      assert Init(rows) == rows[..i];
    }
  }

  lemma {:induction false} OfModeMembers(rows: seq<Row>, mode: int)
    ensures forall row :: row in OfMode(rows, mode) <==> row in rows && row.mode == mode
  {
    if rows != [] {
      OfModeMembers(Init(rows), mode);
      assert forall row :: row in rows <==> row in Init(rows) || row == Last(rows);
    }
  }

  /** Row j comes before row i and belongs to the same mode. */
  ghost predicate Earlier(rows: seq<Row>, j: int, i: int) {
    0 <= j < i < |rows| && rows[j].mode == rows[i].mode
  }

  /** A positive counter above every earlier one of its mode, or a zero with no positive counter of its mode before it. */
  ghost predicate NewCounter(rows: seq<Row>, i: nat)
    requires i < |rows|
  {
    || (rows[i].counter > 0 && forall j :: Earlier(rows, j, i) ==> rows[j].counter < rows[i].counter)
    || (rows[i].counter == 0 && forall j :: Earlier(rows, j, i) ==> rows[j].counter <= 0)
  }

  /**
   A row is left unflagged exactly when its counter is new in that sense: among counters of its own mode only, and
   with 0 acceptable again and again until a positive counter comes, because of the re-arming.
   */
  lemma {:induction false} UnflaggedExactlyWhen(rows: seq<Row>, i: nat)
    requires i < |rows|
    ensures VerifiedRows(rows)[i].pyReplay == 0 <==> NewCounter(rows, i)
  {
    var before := OfMode(rows[..i], rows[i].mode);
    VerifiedAt(rows, i);
    GuardIsLargestPositive(before);
    OfModeMembers(rows[..i], rows[i].mode);
    forall j | Earlier(rows, j, i) ensures rows[j] in before {
      assert rows[..i][j] == rows[j];
    }
    forall row | row in before ensures exists j :: Earlier(rows, j, i) && rows[j] == row {
      var j :| 0 <= j < i && rows[..i][j] == row;
      assert Earlier(rows, j, i) && rows[j] == row;
    }
  }

  // ---------- Modes do not influence each other ----------

  lemma {:induction false} OfModeIdempotent(rows: seq<Row>, mode: int)
    ensures OfMode(OfMode(rows, mode), mode) == OfMode(rows, mode)
  {
    if rows != [] {
      OfModeIdempotent(Init(rows), mode);
      if Last(rows).mode == mode {
        assert Init(OfMode(rows, mode)) == OfMode(Init(rows), mode);
      }
    }
  }

  /** However the modes are interleaved, a mode's verdicts are those its own rows get when verified alone. */
  lemma {:induction false} ModesAreIndependent(rows: seq<Row>, mode: int)
    ensures OutOfMode(VerifiedRows(rows), mode) == VerifiedRows(OfMode(rows, mode))
  {
    if rows != [] {
      ModesAreIndependent(Init(rows), mode);
      assert Init(VerifiedRows(rows)) == VerifiedRows(Init(rows));
      if Last(rows).mode == mode {
        var mine := OfMode(rows, mode);
        assert Init(mine) == OfMode(Init(rows), mode) && Last(mine) == Last(rows);
        OfModeIdempotent(Init(rows), mode);
      }
    }
  }

  // ---------- The report ----------

  /** `max(...)` */
  function MaxOf(xs: seq<int>): (m: int)
    requires xs != []
    ensures m in xs && forall x :: x in xs ==> x <= m
  {
    if |xs| == 1 then xs[0]
    else
      assert forall x :: x in xs <==> x in Init(xs) || x == Last(xs);
      if Last(xs) > MaxOf(Init(xs)) then Last(xs) else MaxOf(Init(xs))
  }

  function PyAuth(v: Verified): int { v.pyAuth }

  function ModelAuth(v: Verified): int { v.modelAuth }

  function PyReplay(v: Verified): int { v.pyReplay }

  function ModelReplay(v: Verified): int { v.modelReplay }

  function PyInjection(v: Verified): int { v.pyInjection }

  function ModelInjection(v: Verified): int { v.modelInjection }

  function Column(group: seq<Verified>, field: Verified -> int): seq<int> {
    seq(|group|, i requires 0 <= i < |group| => field(group[i]))
  }

  function ReportOn(mode: int, group: seq<Verified>): ReportRow
    requires group != []
  {
    var pyAuth, modelAuth := MaxOf(Column(group, PyAuth)), MaxOf(Column(group, ModelAuth));
    var pyReplay, modelReplay := MaxOf(Column(group, PyReplay)), MaxOf(Column(group, ModelReplay));
    var pyInjection, modelInjection := MaxOf(Column(group, PyInjection)), MaxOf(Column(group, ModelInjection));
    ReportRow(mode, pyAuth, modelAuth, pyReplay, modelReplay, pyInjection, modelInjection,
              pyAuth == modelAuth && pyReplay == modelReplay && pyInjection == modelInjection)
  }

  lemma {:induction false} OutOfModeMembers(out: seq<Verified>, mode: int)
    ensures forall v :: v in OutOfMode(out, mode) <==> v in out && v.mode == mode
  {
    if out != [] {
      OutOfModeMembers(Init(out), mode);
      assert forall v :: v in out <==> v in Init(out) || v == Last(out);
    }
  }

  lemma {:induction false} GroupIsNotEmpty(rows: seq<Row>, row: Row)
    requires row in rows
    ensures OutOfMode(VerifiedRows(rows), row.mode) != []
  {
    var i :| 0 <= i < |rows| && rows[i] == row;
    VerifiedAt(rows, i);
    OutOfModeMembers(VerifiedRows(rows), row.mode);
    assert VerifiedRows(rows)[i] in VerifiedRows(rows);
  }

  ghost predicate InMode(rows: seq<Row>, mode: int, i: int) {
    0 <= i < |rows| && rows[i].mode == mode
  }

  lemma {:induction false} GroupIs(rows: seq<Row>, mode: int)
    ensures forall v :: v in OutOfMode(VerifiedRows(rows), mode) <==> exists i :: InMode(rows, mode, i) && VerifiedRows(rows)[i] == v
  {
    var out := VerifiedRows(rows);
    OutOfModeMembers(out, mode);
    forall v | v in OutOfMode(out, mode) ensures exists i :: InMode(rows, mode, i) && out[i] == v {
      var i :| 0 <= i < |out| && out[i] == v;
      VerifiedAt(rows, i);
      assert InMode(rows, mode, i);
    }
    forall i | InMode(rows, mode, i) ensures out[i] in OutOfMode(out, mode) {
      VerifiedAt(rows, i);
      assert out[i] in out;
    }
  }

  /** A column's maximum is some row's value, and no row of the mode has a larger one. */
  lemma {:induction false} ColumnMax(rows: seq<Row>, mode: int, field: Verified -> int)
    requires OutOfMode(VerifiedRows(rows), mode) != []
    ensures var m := MaxOf(Column(OutOfMode(VerifiedRows(rows), mode), field));
            && (exists i :: InMode(rows, mode, i) && field(VerifiedRows(rows)[i]) == m)
            && (forall i :: InMode(rows, mode, i) ==> field(VerifiedRows(rows)[i]) <= m)
  {
    var out, group := VerifiedRows(rows), OutOfMode(VerifiedRows(rows), mode);
    var column := Column(group, field);
    GroupIs(rows, mode);
    var k :| 0 <= k < |column| && column[k] == MaxOf(column);
    assert group[k] in group;
    forall i | InMode(rows, mode, i) ensures field(out[i]) <= MaxOf(column) {
      assert out[i] in group;
      var j :| 0 <= j < |group| && group[j] == out[i];
      assert column[j] in column;
    }
  }

  /** What is written about a row, field by field. */
  lemma {:induction false} RowMeans(rows: seq<Row>, i: nat)
    requires i < |rows|
    ensures var row, v := rows[i], VerifiedRows(rows)[i];
            && v.mode == row.mode && v.time == row.time && v.modelSoc == row.modelSoc
            && v.pySignatureOk == v.pyAuth == (if row.signature == row.nonce + 100 then 1 else 0)
            && v.pyReplay == (if NewCounter(rows, i) then 0 else 1)
            && v.pyInjection == (if row.voltage > 100.0 then 1 else 0)
            && v.modelAuth == row.modelAuth && v.modelReplay == row.modelReplay && v.modelInjection == row.modelInjection
  {
    VerifiedAt(rows, i);
    UnflaggedExactlyWhen(rows, i);
  }

  /** A column of 0s and 1s has maximum 1 exactly when some row of the mode has a 1. */
  lemma {:induction false} FlagColumn(rows: seq<Row>, mode: int, field: Verified -> int)
    requires OutOfMode(VerifiedRows(rows), mode) != []
    requires forall i :: InMode(rows, mode, i) ==> field(VerifiedRows(rows)[i]) in {0, 1}
    ensures MaxOf(Column(OutOfMode(VerifiedRows(rows), mode), field)) ==
            if exists i :: InMode(rows, mode, i) && field(VerifiedRows(rows)[i]) == 1 then 1 else 0
  {
    ColumnMax(rows, mode, field);
  }

  ghost predicate SomeSigned(rows: seq<Row>, mode: int) {
    exists i :: InMode(rows, mode, i) && rows[i].signature == rows[i].nonce + 100
  }

  ghost predicate SomeReplayed(rows: seq<Row>, mode: int) {
    exists i :: InMode(rows, mode, i) && !NewCounter(rows, i)
  }

  ghost predicate SomeInjected(rows: seq<Row>, mode: int) {
    exists i :: InMode(rows, mode, i) && rows[i].voltage > 100.0
  }

  /** The columns computed here: 1 if some row of the mode has a good signature, an old counter, a voltage above 100. */
  lemma {:induction false} OwnColumnsMean(rows: seq<Row>, mode: int)
    requires OutOfMode(VerifiedRows(rows), mode) != []
    ensures var r := ReportOn(mode, OutOfMode(VerifiedRows(rows), mode));
            && r.mode == mode
            && r.pyAuth == (if SomeSigned(rows, mode) then 1 else 0)
            && r.pyReplay == (if SomeReplayed(rows, mode) then 1 else 0)
            && r.pyInjection == (if SomeInjected(rows, mode) then 1 else 0)
            && (r.agree <==> r.pyAuth == r.modelAuth && r.pyReplay == r.modelReplay && r.pyInjection == r.modelInjection)
  {
    var out := VerifiedRows(rows);
    forall i | InMode(rows, mode, i)
      ensures PyAuth(out[i]) == if rows[i].signature == rows[i].nonce + 100 then 1 else 0
      ensures PyReplay(out[i]) == if NewCounter(rows, i) then 0 else 1
      ensures PyInjection(out[i]) == if rows[i].voltage > 100.0 then 1 else 0
    {
      RowMeans(rows, i);
    }
    FlagColumn(rows, mode, PyAuth);
    FlagColumn(rows, mode, PyReplay);
    FlagColumn(rows, mode, PyInjection);
  }

  /** The model's columns: the largest of the mode's rows. */
  lemma {:induction false} ModelColumnsMean(rows: seq<Row>, mode: int)
    requires OutOfMode(VerifiedRows(rows), mode) != []
    ensures var r := ReportOn(mode, OutOfMode(VerifiedRows(rows), mode));
            && (forall i :: InMode(rows, mode, i) ==>
                  rows[i].modelAuth <= r.modelAuth && rows[i].modelReplay <= r.modelReplay && rows[i].modelInjection <= r.modelInjection)
            && (exists i :: InMode(rows, mode, i) && rows[i].modelAuth == r.modelAuth)
            && (exists i :: InMode(rows, mode, i) && rows[i].modelReplay == r.modelReplay)
            && (exists i :: InMode(rows, mode, i) && rows[i].modelInjection == r.modelInjection)
  {
    var out := VerifiedRows(rows);
    forall i | InMode(rows, mode, i)
      ensures ModelAuth(out[i]) == rows[i].modelAuth && ModelReplay(out[i]) == rows[i].modelReplay
              && ModelInjection(out[i]) == rows[i].modelInjection
    {
      RowMeans(rows, i);
    }
    ColumnMax(rows, mode, ModelAuth);
    ColumnMax(rows, mode, ModelReplay);
    ColumnMax(rows, mode, ModelInjection);
  }

  /** The model's flags are 0 or 1, as they should be. */
  ghost predicate ModelFlags(rows: seq<Row>) {
    forall row :: row in rows ==> row.modelAuth in {0, 1} && row.modelReplay in {0, 1} && row.modelInjection in {0, 1}
  }

  /**
   The report says YES on a mode exactly when the input itself and the model's flags agree on three questions:
   did some row of the mode carry a good signature, a counter that is not new, a voltage above the limit?
   */
  lemma {:induction false} AgreementMeans(rows: seq<Row>, mode: int)
    requires mode in Modes(rows) && ModelFlags(rows)
    ensures OutOfMode(VerifiedRows(rows), mode) != []
    ensures ReportOn(mode, OutOfMode(VerifiedRows(rows), mode)).agree <==>
            && (SomeSigned(rows, mode) <==> (exists i :: InMode(rows, mode, i) && rows[i].modelAuth == 1))
            && (SomeReplayed(rows, mode) <==> (exists i :: InMode(rows, mode, i) && rows[i].modelReplay == 1))
            && (SomeInjected(rows, mode) <==> (exists i :: InMode(rows, mode, i) && rows[i].modelInjection == 1))
  {
    var row :| row in rows && row.mode == mode;
    GroupIsNotEmpty(rows, row);
    OwnColumnsMean(rows, mode);
    ModelColumnsMean(rows, mode);
    assert forall i :: InMode(rows, mode, i) ==> rows[i] in rows;
  }

  ghost predicate Ascending(xs: seq<int>, all: set<int>) {
    StrictlyIncreasing(xs) && forall x :: x in xs <==> x in all
  }

  function WithMode(sorted: seq<int>, mode: int): (r: seq<int>)
    requires StrictlyIncreasing(sorted)
    ensures StrictlyIncreasing(r) && forall m :: m in r <==> m in sorted || m == mode
  {
    if sorted == [] || Last(sorted) < mode then
      assert forall i :: 0 <= i < |sorted| ==> sorted[i] <= Last(sorted);
      sorted + [mode]
    else if Last(sorted) == mode then sorted
    else
      var r := WithMode(Init(sorted), mode);
      assert forall i :: 0 <= i < |r| ==> r[i] in r;
      assert forall m :: m in Init(sorted) ==> m < Last(sorted);
      assert forall m :: m in sorted <==> m in Init(sorted) || m == Last(sorted);
      r + [Last(sorted)]
  }

  /** `sorted(mode_results)`; the library's algorithm is not modelled, its result is. */
  function SortedModes(rows: seq<Row>): (sorted: seq<int>)
    ensures Ascending(sorted, Modes(rows))
  {
    if rows == [] then []
    else
      assert forall row :: row in rows <==> row in Init(rows) || row == Last(rows);
      assert Modes(rows) == Modes(Init(rows)) + {Last(rows).mode};
      WithMode(SortedModes(Init(rows)), Last(rows).mode)
  }

  /** The whole of `verify_all`: the verified rows, and the report or the exception raised while writing it. */
  method VerifyAll(rows: seq<Row>) returns (out: seq<Verified>, report: Result<seq<ReportRow>, ReportError>)
    ensures out == VerifiedRows(rows)
    ensures rows == [] ==> report == Err(NoRows)
    ensures rows != [] ==> (report == Err(UnknownMode) <==> exists mode :: mode in Modes(rows) && !(0 <= mode < 12))
    ensures rows != [] && report.Err? ==> report == Err(UnknownMode)
    ensures report.Ok? ==>
              && Ascending(seq(|report.value|, k requires 0 <= k < |report.value| => report.value[k].mode), Modes(rows))
              && forall r :: r in report.value ==>
                   OutOfMode(out, r.mode) != [] && r == ReportOn(r.mode, OutOfMode(out, r.mode))
  {
    out := VerifyRows(rows);
    if |out| == 0 {
      return out, Err(NoRows);
    }
    var sorted := SortedModes(rows);
    var lines: seq<ReportRow> := [];
    for k := 0 to |sorted|
      invariant |lines| == k && forall i :: 0 <= i < k ==> lines[i].mode == sorted[i] && 0 <= sorted[i] < MODE_COUNT
      invariant forall r :: r in lines ==> OutOfMode(out, r.mode) != [] && r == ReportOn(r.mode, OutOfMode(out, r.mode))
    {
      var mode := sorted[k];
      assert mode in sorted;
      ghost var row :| row in rows && row.mode == mode;
      GroupIsNotEmpty(rows, row);
      var group := OutOfMode(out, mode);
      var line := ReportOn(mode, group);
      if !(0 <= mode < MODE_COUNT) {
        return out, Err(UnknownMode);
      }
      lines := lines + [line];
    }
    assert seq(|lines|, k requires 0 <= k < |lines| => lines[k].mode) == sorted;
    report := Ok(lines);
  }
}
