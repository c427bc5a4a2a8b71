/**
  * The clean-up pass over the schedule rows: an empty visit id takes the id
  * of the row before it, a start time that is the "attached to prime"
  * marker or empty takes the start time of the row before it and is then
  * parsed, and a duration keeps only its second `/`-separated part.
  */
module Normalizer {
  import opened Wrappers
  import opened PyStr
  import opened Timestamps
  import opened Records

  const VISIT_ID: string := "VISIT_ID"
  const SCHEDULED_START_TIME: string := "SCHEDULED_START_TIME"
  const DURATION: string := "DURATION"

  /** The start-time text of a row that runs alongside the row before it. */
  const ATTACHED_TO_PRIME: string := "^ATTACHED TO PRIME^"

  /**
    * Why the pass stops at row `index`: a missing column (`KeyError`), a
    * field that is no longer text (`TypeError` from `strptime`,
    * `AttributeError` from `split`), a start time that does not match the
    * format (`ValueError`), or a duration without a `/` (`IndexError`).
    */
  datatype NormError =
    | MissingKey(index: nat, key: string)
    | NotText(index: nat, key: string)
    | BadStart(index: nat, text: string)
    | NoSlash(index: nat, text: string)

  /** The values carried from one row to the next: `prev_vid` and `prev_sst`. */
  datatype Carry = Carry(visit: Value, start: string)

  /** Both carried values start out as the empty string. */
  const INITIAL: Carry := Carry(Text(""), "")

  /** The visit id after the fill: an empty id takes the previous one. */
  function FillVisit(prev: Value, v: Value): Value
  {
    if v == Text("") then prev else v
  }

  /** The start-time text after the two substitutions, in the order the script makes them. */
  function ResolveStart(prev: string, s: string): string
  {
    var s1 := if s == ATTACHED_TO_PRIME then prev else s;
    if s1 == "" then prev else s1
  }

  /** `d.split("/")[1]`, or None where that raises `IndexError`. */
  function DurationPart(d: string): Option<string>
  {
    var parts := SplitOn(d, '/');
    if |parts| < 2 then None else Some(parts[1])
  }

  /** A reading of start-time text as a date-time, or None where it raises `ValueError`. */
  type Parser = string -> Option<Timestamp>

  /**
    * One turn of the loop, with `parse` reading the start time: the row's
    * new fields and the values carried to the next row, or why the row
    * stops the pass. The three columns are distinct, so each check can look
    * at the row as it came in; the checks come in the order the script
    * makes them, and `NormaliseRow` performs them on the row as it changes.
    */
  function NormaliseRecord(parse: Parser, c: Carry, rec: Record, i: nat): Result<(Carry, Record), NormError>
  {
    if VISIT_ID !in rec then Failure(MissingKey(i, VISIT_ID))
    else if SCHEDULED_START_TIME !in rec then Failure(MissingKey(i, SCHEDULED_START_TIME))
    else if rec[SCHEDULED_START_TIME].Time? then Failure(NotText(i, SCHEDULED_START_TIME))
    else
      var visit := FillVisit(c.visit, rec[VISIT_ID]);
      var sst := ResolveStart(c.start, rec[SCHEDULED_START_TIME].s);
      match parse(sst)
      case None => Failure(BadStart(i, sst))
      case Some(t) =>
        if DURATION !in rec then Failure(MissingKey(i, DURATION))
        else if rec[DURATION].Time? then Failure(NotText(i, DURATION))
        else
          var d := rec[DURATION].s;
          var dur := if d == "" then Some(d) else DurationPart(d);
          match dur
          case None => Failure(NoSlash(i, d))
          case Some(part) =>
            Success((Carry(visit, sst), rec[VISIT_ID := visit][SCHEDULED_START_TIME := Time(t)][DURATION := Text(part)]))
  }

  /** A turn of the loop as a value: the carried values, a row and its position in; the new row and carried values out, or an error. */
  type Step = (Carry, Record, nat) -> Result<(Carry, Record), NormError>

  /**
    * A pass of `step` over the first `n` rows, left to right from the
    * initial carried values: the carried values after the last row and
    * the new rows, or the first error, after which no row is looked at.
    */
  function Fold(step: Step, recs: seq<Record>, n: nat): Result<(Carry, seq<Record>), NormError>
    requires n <= |recs|
  {
    if n == 0 then Success((INITIAL, []))
    else
      match Fold(step, recs, n - 1)
      case Failure(e) => Failure(e)
      case Success(done) =>
        match step(done.0, recs[n - 1], n - 1)
        case Failure(e) => Failure(e)
        case Success(turn) => Success((turn.0, done.1 + [turn.1]))
  }

  /** The turn of the loop that reads start times with `parse`. */
  function RowStep(parse: Parser): Step
  {
    (c: Carry, rec: Record, i: nat) => NormaliseRecord(parse, c, rec, i)
  }

  /** The clean-up pass over all rows, reading start times with `parse`. */
  function NormaliseWith(parse: Parser, recs: seq<Record>): Result<seq<Record>, NormError>
  {
    match Fold(RowStep(parse), recs, |recs|)
    case Failure(e) => Failure(e)
    case Success(done) => Success(done.1)
  }

  /** The clean-up pass of the script, which reads start times with `strptime`. */
  function Normalise(recs: seq<Record>): Result<seq<Record>, NormError>
  {
    NormaliseWith(ParseTimestamp, recs)
  }

  // ---------------------------------------------------------------------
  // Any pass of this shape
  // ---------------------------------------------------------------------

  /** A pass that succeeds on `n` rows yields `n` rows and succeeds on every shorter prefix, with a prefix of them. */
  lemma {:induction false} FoldPrefix(step: Step, recs: seq<Record>, n: nat, m: nat)
    requires m <= n <= |recs| && Fold(step, recs, n).Success?
    ensures Fold(step, recs, m).Success?
    ensures |Fold(step, recs, n).value.1| == n
    ensures Fold(step, recs, m).value.1 == Fold(step, recs, n).value.1[..m]
    decreases n
  {
    if n > 0 {
      var before := Fold(step, recs, n - 1);
      FoldPrefix(step, recs, n - 1, if m < n then m else n - 1);
      var out := Fold(step, recs, n).value.1;
      assert out[..n - 1] == before.value.1;
      if m < n {
        assert out[..m] == before.value.1[..m];
      } else {
        assert out[..m] == out;
      }
    }
  }

  /** Row `i` of a successful pass is one turn on that row, with the values carried from the rows before it. */
  lemma FoldAt(step: Step, recs: seq<Record>, n: nat, i: nat)
    requires i < n <= |recs| && Fold(step, recs, n).Success?
    ensures Fold(step, recs, i).Success? && Fold(step, recs, i + 1).Success?
    ensures var turn := step(Fold(step, recs, i).value.0, recs[i], i);
      turn.Success?
      && |Fold(step, recs, n).value.1| == n
      && Fold(step, recs, n).value.1[i] == turn.value.1
      && Fold(step, recs, i + 1).value.0 == turn.value.0
  {
    FoldPrefix(step, recs, n, i + 1);
    FoldPrefix(step, recs, i + 1, i);
    var out := Fold(step, recs, n).value.1;
    assert out[..i + 1][i] == out[i];
  }

  /** The carried values after a successful pass are those of its last turn. */
  lemma FoldLast(step: Step, recs: seq<Record>, n: nat)
    requires 0 < n <= |recs| && Fold(step, recs, n).Success?
    ensures Fold(step, recs, n - 1).Success?
    ensures var turn := step(Fold(step, recs, n - 1).value.0, recs[n - 1], n - 1);
      turn.Success? && Fold(step, recs, n).value.0 == turn.value.0
  {
  }

  /** Once a prefix fails, every longer prefix fails with the same error. */
  lemma {:induction false} FoldFinal(step: Step, recs: seq<Record>, n: nat, m: nat)
    requires n <= m <= |recs| && Fold(step, recs, n).Failure?
    ensures Fold(step, recs, m) == Fold(step, recs, n)
    decreases m
  {
    if n < m {
      FoldFinal(step, recs, n, m - 1);
    }
  }

  /** One more row: the pass goes on with the turn's row, or stops for good with the turn's error. */
  lemma FoldExtend(step: Step, recs: seq<Record>, i: nat, c: Carry, out: seq<Record>)
    requires i < |recs| && Fold(step, recs, i) == Success((c, out))
    ensures step(c, recs[i], i).Success? ==>
      Fold(step, recs, i + 1) == Success((step(c, recs[i], i).value.0, out + [step(c, recs[i], i).value.1]))
    ensures step(c, recs[i], i).Failure? ==> Fold(step, recs, |recs|) == Failure(step(c, recs[i], i).error)
  {
    if step(c, recs[i], i).Failure? {
      FoldFinal(step, recs, i + 1, |recs|);
    }
  }

  /** A pass that fails does so at some row `i`: every row before it passed, and the turn on row `i` gave the error. */
  lemma {:induction false} FoldFails(step: Step, recs: seq<Record>, n: nat) returns (i: nat)
    requires n <= |recs| && Fold(step, recs, n).Failure?
    ensures i < n && Fold(step, recs, i).Success?
    ensures step(Fold(step, recs, i).value.0, recs[i], i) == Failure(Fold(step, recs, n).error)
  {
    if Fold(step, recs, n - 1).Failure? {
      i := FoldFails(step, recs, n - 1);
    } else {
      i := n - 1;
    }
  }

  // ---------------------------------------------------------------------
  // Reference definitions: the nearest earlier value
  // ---------------------------------------------------------------------

  /** The id of the last row among the first `n` whose id is not empty, or `""` when there is none. */
  function NearestVisit(recs: seq<Record>, n: nat): Value
    requires n <= |recs|
  {
    if n == 0 then Text("")
    else if VISIT_ID in recs[n - 1] && recs[n - 1][VISIT_ID] != Text("") then recs[n - 1][VISIT_ID]
    else NearestVisit(recs, n - 1)
  }

  /** Whether a row's start time is given outright: text other than the marker or the empty string. */
  predicate OwnStart(rec: Record)
  {
    SCHEDULED_START_TIME in rec && rec[SCHEDULED_START_TIME].Text?
    && rec[SCHEDULED_START_TIME].s != ATTACHED_TO_PRIME && rec[SCHEDULED_START_TIME].s != ""
  }

  /** The start time of the last row among the first `n` that gives one outright, or `""` when there is none. */
  function NearestStart(recs: seq<Record>, n: nat): string
    requires n <= |recs|
  {
    if n == 0 then ""
    else if OwnStart(recs[n - 1]) then recs[n - 1][SCHEDULED_START_TIME].s
    else NearestStart(recs, n - 1)
  }

  /**
    * The nearest earlier id in closed form: it is `""` and every id so far
    * is empty, or it is the id of some row `j` after which every id is empty.
    */
  lemma {:induction false} NearestVisitSpec(recs: seq<Record>, n: nat)
    requires n <= |recs| && forall k :: 0 <= k < n ==> VISIT_ID in recs[k]
    ensures var v := NearestVisit(recs, n);
      (v == Text("") && forall k :: 0 <= k < n ==> recs[k][VISIT_ID] == Text(""))
      || exists j :: 0 <= j < n && recs[j][VISIT_ID] == v && v != Text("")
           && forall k :: j < k < n ==> recs[k][VISIT_ID] == Text("")
  {
    if n > 0 {
      NearestVisitSpec(recs, n - 1);
      if recs[n - 1][VISIT_ID] != Text("") {
        var j := n - 1;
        assert recs[j][VISIT_ID] == NearestVisit(recs, n);
      }
    }
  }

  /**
    * The nearest earlier start time in closed form: it is `""` and no row so
    * far gives its own start time, or it is the start time of some row `j`
    * that gives one, after which no row does.
    */
  lemma {:induction false} NearestStartSpec(recs: seq<Record>, n: nat)
    requires n <= |recs|
    ensures var v := NearestStart(recs, n);
      (v == "" && forall k :: 0 <= k < n ==> !OwnStart(recs[k]))
      || exists j :: 0 <= j < n && OwnStart(recs[j]) && recs[j][SCHEDULED_START_TIME].s == v
           && forall k :: j < k < n ==> !OwnStart(recs[k])
  {
    if n > 0 {
      NearestStartSpec(recs, n - 1);
      if OwnStart(recs[n - 1]) {
        var j := n - 1;
        assert recs[j][SCHEDULED_START_TIME].s == NearestStart(recs, n);
      }
    }
  }

  /**
    * One more row moves the nearest earlier id and start time on exactly as
    * one turn moves the carried values: they are the reference definitions
    * of what the loop carries.
    */
  lemma NearestStep(recs: seq<Record>, i: nat)
    requires i < |recs|
    ensures VISIT_ID in recs[i] ==> NearestVisit(recs, i + 1) == FillVisit(NearestVisit(recs, i), recs[i][VISIT_ID])
    ensures SCHEDULED_START_TIME in recs[i] && recs[i][SCHEDULED_START_TIME].Text? ==>
      NearestStart(recs, i + 1) == ResolveStart(NearestStart(recs, i), recs[i][SCHEDULED_START_TIME].s)
  {
  }

  // ---------------------------------------------------------------------
  // One row
  // ---------------------------------------------------------------------

  lemma KeysDistinct()
    ensures VISIT_ID != SCHEDULED_START_TIME && VISIT_ID != DURATION && SCHEDULED_START_TIME != DURATION
  {
    assert VISIT_ID[0] != DURATION[0];
  }

  /**
    * A row is rejected exactly when a column is missing, the start time or
    * the duration is not text, the resolved start time does not parse, or a
    * non-empty duration has no `/`.
    */
  lemma RecordFails(parse: Parser, c: Carry, rec: Record, i: nat)
    ensures NormaliseRecord(parse, c, rec, i).Failure? <==>
      VISIT_ID !in rec || SCHEDULED_START_TIME !in rec || rec[SCHEDULED_START_TIME].Time?
      || parse(ResolveStart(c.start, rec[SCHEDULED_START_TIME].s)).None?
      || DURATION !in rec || rec[DURATION].Time?
      || (rec[DURATION].s != "" && Lacks(rec[DURATION].s, '/'))
  {
    KeysDistinct();
    if DURATION in rec && rec[DURATION].Text? {
      SplitOnCount(rec[DURATION].s, '/');
    }
  }

  /**
    * A row that passes has the three columns, its start time and duration
    * are text, and it keeps its set of columns and every other column.
    */
  lemma RecordKeeps(parse: Parser, c: Carry, rec: Record, i: nat)
    requires NormaliseRecord(parse, c, rec, i).Success?
    ensures VISIT_ID in rec && SCHEDULED_START_TIME in rec && DURATION in rec
    ensures rec[SCHEDULED_START_TIME].Text? && rec[DURATION].Text?
    ensures var out := NormaliseRecord(parse, c, rec, i).value.1;
      out.Keys == rec.Keys
      && forall k :: k in rec && k != VISIT_ID && k != SCHEDULED_START_TIME && k != DURATION ==> out[k] == rec[k]
  {
    KeysDistinct();
  }

  /** After a row that passes, the carried values are its filled id and its resolved start-time text. */
  lemma RecordCarries(parse: Parser, c: Carry, rec: Record, i: nat)
    requires NormaliseRecord(parse, c, rec, i).Success?
    ensures VISIT_ID in rec && SCHEDULED_START_TIME in rec && rec[SCHEDULED_START_TIME].Text?
    ensures NormaliseRecord(parse, c, rec, i).value.0
         == Carry(FillVisit(c.visit, rec[VISIT_ID]), ResolveStart(c.start, rec[SCHEDULED_START_TIME].s))
  {
    KeysDistinct();
  }

  /**
    * In a row that passes, the id is the filled id, the start time is the
    * parsed resolved text, and a duration is cut to its second part when
    * it is not empty.
    */
  lemma RecordFields(parse: Parser, c: Carry, rec: Record, i: nat)
    requires NormaliseRecord(parse, c, rec, i).Success?
    ensures VISIT_ID in rec && SCHEDULED_START_TIME in rec && DURATION in rec
    ensures rec[SCHEDULED_START_TIME].Text? && rec[DURATION].Text?
    ensures var out, sst, d := NormaliseRecord(parse, c, rec, i).value.1, ResolveStart(c.start, rec[SCHEDULED_START_TIME].s), rec[DURATION].s;
      VISIT_ID in out && out[VISIT_ID] == FillVisit(c.visit, rec[VISIT_ID])
      && parse(sst).Some? && SCHEDULED_START_TIME in out && out[SCHEDULED_START_TIME] == Time(parse(sst).value)
      && DURATION in out && (d == "" ==> out[DURATION] == Text(""))
      && (d != "" ==> DurationPart(d).Some? && out[DURATION] == Text(DurationPart(d).value))
  {
    KeysDistinct();
  }

  // ---------------------------------------------------------------------
  // Durations
  // ---------------------------------------------------------------------

  /** `split("/")[1]` fails exactly when there is no `/`. */
  lemma DurationPartFails(d: string)
    ensures DurationPart(d).None? <==> Lacks(d, '/')
  {
    SplitOnCount(d, '/');
  }

  /** Of two parts around one `/`, the second is kept. */
  lemma DurationOfPair(a: string, b: string)
    requires Lacks(a, '/') && Lacks(b, '/')
    ensures DurationPart(a + "/" + b) == Some(b)
  {
    assert a + "/" + b == JoinOn([a, b], '/');
    SplitOnJoin([a, b], '/');
  }

  /** The planned and the scheduled duration: `"01:00/00:45"` becomes `"00:45"`. */
  lemma DurationExample()
    ensures DurationPart("01:00/00:45") == Some("00:45")
  {
    DurationOfPair("01:00", "00:45");
    assert "01:00" + "/" + "00:45" == "01:00/00:45";
  }

  // ---------------------------------------------------------------------
  // The whole pass
  // ---------------------------------------------------------------------

  /** A turn that carries on the filled id and the resolved start-time text of every row it passes. */
  ghost predicate CarriesFilled(step: Step)
  {
    forall c: Carry, rec: Record, i: nat :: step(c, rec, i).Success? ==>
      VISIT_ID in rec && SCHEDULED_START_TIME in rec && rec[SCHEDULED_START_TIME].Text?
      && step(c, rec, i).value.0 == Carry(FillVisit(c.visit, rec[VISIT_ID]), ResolveStart(c.start, rec[SCHEDULED_START_TIME].s))
  }

  /** The script's turn carries on the filled id and the resolved start-time text, whatever reads the start times. */
  lemma RowStepCarries(parse: Parser)
    ensures CarriesFilled(RowStep(parse))
  {
    forall c: Carry, rec: Record, i: nat | RowStep(parse)(c, rec, i).Success?
      ensures VISIT_ID in rec && SCHEDULED_START_TIME in rec && rec[SCHEDULED_START_TIME].Text?
      ensures RowStep(parse)(c, rec, i).value.0 == Carry(FillVisit(c.visit, rec[VISIT_ID]), ResolveStart(c.start, rec[SCHEDULED_START_TIME].s))
    {
      RecordCarries(parse, c, rec, i);
    }
  }

  /**
    * For a turn that carries on filled ids and resolved start times, the
    * carried values after `n` rows are the nearest earlier id and the
    * nearest earlier start time given outright.
    */
  lemma {:induction false} CarryIsNearest(step: Step, recs: seq<Record>, n: nat)
    requires CarriesFilled(step)
    requires n <= |recs| && Fold(step, recs, n).Success?
    ensures Fold(step, recs, n).value.0 == Carry(NearestVisit(recs, n), NearestStart(recs, n))
  {
    if n > 0 {
      FoldLast(step, recs, n);
      CarryIsNearest(step, recs, n - 1);
      NearestStep(recs, n - 1);
    }
  }

  /** What a successful pass reading start times with `parse` makes of row `i`. */
  predicate NormalisedRow(parse: Parser, recs: seq<Record>, out: seq<Record>, i: nat)
    requires i < |recs| && |out| == |recs|
  {
    var rec, row := recs[i], out[i];
    VISIT_ID in rec && SCHEDULED_START_TIME in rec && DURATION in rec
    && rec[SCHEDULED_START_TIME].Text? && rec[DURATION].Text?
    && row.Keys == rec.Keys
    && (forall k :: k in rec && k != VISIT_ID && k != SCHEDULED_START_TIME && k != DURATION ==> row[k] == rec[k])
    && row[VISIT_ID] == NearestVisit(recs, i + 1)
    && (rec[VISIT_ID] != Text("") ==> row[VISIT_ID] == rec[VISIT_ID])
    && parse(NearestStart(recs, i + 1)).Some?
    && row[SCHEDULED_START_TIME] == Time(parse(NearestStart(recs, i + 1)).value)
    && (rec[DURATION].s == "" ==> row[DURATION] == Text(""))
    && (rec[DURATION].s != "" ==> DurationPart(rec[DURATION].s).Some? && row[DURATION] == Text(DurationPart(rec[DURATION].s).value))
  }

  /** Row `i` of a successful pass, described through the reference definitions. */
  lemma NormalisedRowAt(parse: Parser, recs: seq<Record>, i: nat)
    requires i < |recs| && NormaliseWith(parse, recs).Success?
    ensures |NormaliseWith(parse, recs).value| == |recs|
    ensures NormalisedRow(parse, recs, NormaliseWith(parse, recs).value, i)
  {
    FoldAt(RowStep(parse), recs, |recs|, i);
    var c := Fold(RowStep(parse), recs, i).value.0;
    RowStepCarries(parse);
    CarryIsNearest(RowStep(parse), recs, i);
    NearestStep(recs, i);
    RecordKeeps(parse, c, recs[i], i);
    RecordFields(parse, c, recs[i], i);
  }

  /**
    * After a successful pass there are as many rows as before, each with
    * the same columns; an id is kept when it is not empty and is otherwise
    * the nearest earlier non-empty id (`""` when there is none); the start
    * time is the parsed nearest start time given outright, up to and
    * including the row; a duration is cut to its second `/`-part when it is
    * not empty; and every other column is unchanged. This holds whatever
    * reads the start times, so in particular for `Normalise`.
    */
  lemma NormaliseSpec(parse: Parser, recs: seq<Record>)
    requires NormaliseWith(parse, recs).Success?
    ensures |NormaliseWith(parse, recs).value| == |recs|
    ensures forall i :: 0 <= i < |recs| ==> NormalisedRow(parse, recs, NormaliseWith(parse, recs).value, i)
  {
    FoldPrefix(RowStep(parse), recs, |recs|, |recs|);
    forall i | 0 <= i < |recs|
      ensures NormalisedRow(parse, recs, NormaliseWith(parse, recs).value, i)
    {
      NormalisedRowAt(parse, recs, i);
    }
  }

  /** The error of a row names that row. */
  lemma RecordIndex(parse: Parser, c: Carry, rec: Record, i: nat)
    requires NormaliseRecord(parse, c, rec, i).Failure?
    ensures NormaliseRecord(parse, c, rec, i).error.index == i
  {
  }

  /**
    * A pass that fails names the first row it could not handle: every row
    * before it passed, and that row, with the values carried to it, fails
    * with that error.
    */
  lemma NormaliseFails(parse: Parser, recs: seq<Record>)
    requires NormaliseWith(parse, recs).Failure?
    ensures var e := NormaliseWith(parse, recs).error;
      e.index < |recs| && Fold(RowStep(parse), recs, e.index).Success?
      && NormaliseRecord(parse, Fold(RowStep(parse), recs, e.index).value.0, recs[e.index], e.index) == Failure(e)
  {
    var i := FoldFails(RowStep(parse), recs, |recs|);
    RecordIndex(parse, Fold(RowStep(parse), recs, i).value.0, recs[i], i);
  }

  /** The empty string is not a timestamp. */
  lemma EmptyIsNotTimestamp()
    ensures ParseTimestamp("").None?
  {
  }

  /**
    * With nothing to carry from, a first row whose start time is the marker
    * or empty stops the pass with a start-time error on the empty string.
    */
  lemma FirstRowAttached(recs: seq<Record>)
    requires |recs| > 0 && VISIT_ID in recs[0] && SCHEDULED_START_TIME in recs[0]
    requires recs[0][SCHEDULED_START_TIME] in {Text(ATTACHED_TO_PRIME), Text("")}
    ensures Normalise(recs) == Failure(BadStart(0, ""))
  {
    KeysDistinct();
    EmptyIsNotTimestamp();
    assert Fold(RowStep(ParseTimestamp), recs, 1) == Failure(BadStart(0, ""));
    FoldFinal(RowStep(ParseTimestamp), recs, 1, |recs|);
  }

  /** A start time written out in the report's format is kept, as the time it denotes. */
  lemma LiteralStartKept(recs: seq<Record>, i: nat, t: Timestamp)
    requires Normalise(recs).Success? && i < |recs| && Valid(t)
    requires SCHEDULED_START_TIME in recs[i] && recs[i][SCHEDULED_START_TIME] == Text(Render(t))
    ensures |Normalise(recs).value| == |recs|
    ensures SCHEDULED_START_TIME in Normalise(recs).value[i] && Normalise(recs).value[i][SCHEDULED_START_TIME] == Time(t)
  {
    NormalisedRowAt(ParseTimestamp, recs, i);
    RenderParses(t);
    assert |Render(t)| != |ATTACHED_TO_PRIME|;
    assert OwnStart(recs[i]);
  }

  /** A reading of start times that only ever gives valid date-times. */
  ghost predicate ParsesValid(parse: Parser)
  {
    forall s: string :: parse(s).Some? ==> Valid(parse(s).value)
  }

  /** `strptime` only ever gives valid date-times. */
  lemma StrptimeParsesValid()
    ensures ParsesValid(ParseTimestamp)
  {
  }

  /** Every row of a successful pass has a valid date-time as its start time, when the reading of start times gives only valid ones. */
  lemma NormalisedStartsValid(parse: Parser, recs: seq<Record>)
    requires ParsesValid(parse) && NormaliseWith(parse, recs).Success?
    ensures |NormaliseWith(parse, recs).value| == |recs|
    ensures forall i :: 0 <= i < |recs| ==>
      SCHEDULED_START_TIME in NormaliseWith(parse, recs).value[i] && NormaliseWith(parse, recs).value[i][SCHEDULED_START_TIME].Time?
      && Valid(NormaliseWith(parse, recs).value[i][SCHEDULED_START_TIME].t)
  {
    FoldPrefix(RowStep(parse), recs, |recs|, |recs|);
    var out: seq<Record> := NormaliseWith(parse, recs).value;
    forall i | 0 <= i < |recs|
      ensures SCHEDULED_START_TIME in out[i] && out[i][SCHEDULED_START_TIME].Time? && Valid(out[i][SCHEDULED_START_TIME].t)
    {
      NormalisedRowAt(parse, recs, i);
    }
  }

  // ---------------------------------------------------------------------
  // The loop
  // ---------------------------------------------------------------------

  /**
    * The body of the loop on one row, in the script's order: fill the id,
    * resolve and parse the start time, cut the duration; it gives the row
    * and the carried values, or the first error.
    */
  method NormaliseRow(parse: Parser, prevVid: Value, prevSst: string, row: Record, i: nat) returns (r: Result<(Carry, Record), NormError>)
    ensures r == NormaliseRecord(parse, Carry(prevVid, prevSst), row, i)
  {
    var wd := row;
    if VISIT_ID !in wd {
      return Failure(MissingKey(i, VISIT_ID));
    }
    if wd[VISIT_ID] == Text("") {
      wd := wd[VISIT_ID := prevVid];
    }
    var vid := wd[VISIT_ID];
    assert wd == row[VISIT_ID := vid];
    if SCHEDULED_START_TIME !in wd {
      return Failure(MissingKey(i, SCHEDULED_START_TIME));
    }
    var sstValue := wd[SCHEDULED_START_TIME];
    if sstValue.Time? {
      return Failure(NotText(i, SCHEDULED_START_TIME));
    }
    var sst := sstValue.s;
    if sst == ATTACHED_TO_PRIME {
      sst := prevSst;
    }
    if sst == "" {
      sst := prevSst;
    }
    var parsed := parse(sst);
    if parsed.None? {
      return Failure(BadStart(i, sst));
    }
    wd := wd[SCHEDULED_START_TIME := Time(parsed.value)];
    if DURATION !in wd {
      return Failure(MissingKey(i, DURATION));
    }
    var duration := wd[DURATION];
    if duration.Time? {
      return Failure(NotText(i, DURATION));
    }
    if duration.s != "" {
      var part := DurationPart(duration.s);
      if part.None? {
        return Failure(NoSlash(i, duration.s));
      }
      wd := wd[DURATION := Text(part.value)];
    } else {
      assert wd == wd[DURATION := duration];
    }
    KeysDistinct();
    return Success((Carry(vid, sst), wd));
  }

  /**
    * The loop over `wos_data`, updating each row in place while carrying
    * `prev_vid` and `prev_sst`; it stops at the first row it cannot handle.
    */
  method NormaliseRecords(parse: Parser, a: array<Record>) returns (r: Outcome<NormError>)
    modifies a
    ensures r.Pass? <==> NormaliseWith(parse, old(a[..])).Success?
    ensures r.Fail? ==> r.error == NormaliseWith(parse, old(a[..])).error
    ensures r.Pass? ==> a[..] == NormaliseWith(parse, old(a[..])).value
  {
    ghost var recs := a[..];
    var prevVid: Value := Text("");
    var prevSst: string := "";
    for i := 0 to a.Length
      invariant a[i..] == recs[i..]
      invariant Fold(RowStep(parse), recs, i) == Success((Carry(prevVid, prevSst), a[..i]))
    {
      assert a[i] == recs[i];
      FoldExtend(RowStep(parse), recs, i, Carry(prevVid, prevSst), a[..i]);
      var turn := NormaliseRow(parse, prevVid, prevSst, a[i], i);
      match turn
      case Failure(e) =>
        return Fail(e);
      case Success(next) =>
        a[i] := next.1;
        prevVid, prevSst := next.0.visit, next.0.start;
        assert a[..i + 1] == a[..i] + [next.1];
    }
    assert a[..] == a[..a.Length];
    return Pass;
  }
}
