/**
  * `datetime.strptime(s, "%Y-%m-%dT%H:%M:%SZ")`: which strings it accepts and
  * the date-time it builds from them.
  *
  * `strptime` turns the format into a regular expression matched without
  * regard to case: `%Y` is four digits, `%m`, `%H`, `%M` and `%S` one or two
  * digits in their ranges (seconds up to 61), `%d` one or two digits or a
  * blank and a digit, and `T`, `Z` match either case. The whole string must
  * be consumed. The parsed fields must then form a valid `datetime`.
  */
module Timestamps {
  import opened Wrappers
  import opened PyStr

  /** The fields of the `datetime` that `strptime` returns (no time zone). */
  datatype Timestamp = Timestamp(year: nat, month: nat, day: nat, hour: nat, minute: nat, second: nat)

  predicate IsLeapYear(y: nat)
  {
    y % 4 == 0 && (y % 100 != 0 || y % 400 == 0)
  }

  function DaysInMonth(y: nat, m: nat): nat
    requires 1 <= m <= 12
  {
    if m == 2 then (if IsLeapYear(y) then 29 else 28)
    else if m == 4 || m == 6 || m == 9 || m == 11 then 30
    else 31
  }

  /** The ranges the `datetime` constructor accepts. */
  predicate Valid(t: Timestamp)
  {
    1 <= t.year <= 9999 && 1 <= t.month <= 12 && 1 <= t.day <= DaysInMonth(t.year, t.month)
    && t.hour < 24 && t.minute < 60 && t.second < 60
  }

  // The patterns `strptime` uses for each directive of the format.

  predicate YearField(f: string)
  {
    |f| == 4 && AllDigits(f)
  }

  predicate MonthField(f: string)
  {
    (|f| == 1 && '1' <= f[0] <= '9')
    || (|f| == 2 && ((f[0] == '0' && '1' <= f[1] <= '9') || (f[0] == '1' && '0' <= f[1] <= '2')))
  }

  predicate DayField(f: string)
  {
    (|f| == 1 && '1' <= f[0] <= '9')
    || (|f| == 2 && ((f[0] == '3' && '0' <= f[1] <= '1') || ('1' <= f[0] <= '2' && IsDigit(f[1]))
                     || ((f[0] == '0' || f[0] == ' ') && '1' <= f[1] <= '9')))
  }

  predicate HourField(f: string)
  {
    (|f| == 1 && IsDigit(f[0]))
    || (|f| == 2 && ((f[0] == '2' && '0' <= f[1] <= '3') || ('0' <= f[0] <= '1' && IsDigit(f[1]))))
  }

  predicate MinuteField(f: string)
  {
    (|f| == 1 && IsDigit(f[0])) || (|f| == 2 && '0' <= f[0] <= '5' && IsDigit(f[1]))
  }

  predicate SecondField(f: string)
  {
    (|f| == 1 && IsDigit(f[0]))
    || (|f| == 2 && ((f[0] == '6' && '0' <= f[1] <= '1') || ('0' <= f[0] <= '5' && IsDigit(f[1]))))
  }

  /** The digits of a field, without the blank `%d` allows before one digit. */
  function FieldDigits(f: string): string
  {
    if f != [] && f[0] == ' ' then f[1..] else f
  }

  /** The number a matched field denotes (`int(field)`). */
  function FieldValue(f: string): nat
    requires AllDigits(FieldDigits(f))
  {
    DigitsValue(FieldDigits(f))
  }

  /**
    * Splits `s` at its first character from `seps`: what comes before it
    * (free of `seps`) and what comes after it; None when no such character.
    */
  function Cut(s: string, seps: set<char>): (r: Option<(string, string)>)
    ensures r.None? ==> Avoids(s, seps)
    ensures r.Some? ==>
      (|r.value.0| < |s| && s[|r.value.0|] in seps
       && s == r.value.0 + [s[|r.value.0|]] + r.value.1
       && Avoids(r.value.0, seps))
    decreases |s|
  {
    if s == [] then None
    else if s[0] in seps then
      assert s == [] + [s[0]] + s[1..];
      Some(([], s[1..]))
    else
      match Cut(s[1..], seps)
      case None => None
      case Some((a, b)) =>
        assert s == [s[0]] + s[1..];
        Some(([s[0]] + a, b))
  }

  /**
    * Cuts `s` at the first character of each separator set in turn: the
    * piece before each cut, then whatever is left after the last one.
    */
  function CutAll(s: string, seps: seq<set<char>>): (r: Option<seq<string>>)
    ensures r.Some? ==> |r.value| == |seps| + 1
    decreases |seps|
  {
    if seps == [] then Some([s])
    else
      match Cut(s, seps[0])
      case None => None
      case Some((piece, rest)) =>
        match CutAll(rest, seps[1..])
        case None => None
        case Some(pieces) => Some([piece] + pieces)
  }

  const DATE_SEP: set<char> := {'-'}
  const DATE_TIME_SEP: set<char> := {'T', 't'}
  const TIME_SEP: set<char> := {':'}
  const ZONE: set<char> := {'Z', 'z'}

  /** The literal characters that end the month, day, hour, minute and second fields. */
  const FIELD_ENDS: seq<set<char>> := [DATE_SEP, DATE_TIME_SEP, TIME_SEP, TIME_SEP, ZONE]

  /** The date-time fields in the order the format gives them. */
  datatype Fields = Fields(year: string, month: string, day: string, hour: string, minute: string, second: string)

  /** Cuts `s` into the six fields around the format's literal characters; None when one is missing or text is left over. */
  function SplitFields(s: string): Option<Fields>
  {
    if |s| < 5 || s[4] != '-' then None
    else
      match CutAll(s[5..], FIELD_ENDS)
      case None => None
      case Some(p) =>
        if p[5] != [] then None else Some(Fields(s[..4], p[0], p[1], p[2], p[3], p[4]))
  }

  /** Each field matches the pattern of its directive. */
  predicate FieldsMatch(f: Fields)
  {
    YearField(f.year) && MonthField(f.month) && DayField(f.day)
    && HourField(f.hour) && MinuteField(f.minute) && SecondField(f.second)
  }

  /** Every field that matches its pattern is made of digits once a leading blank is dropped. */
  lemma MatchedFieldsAreDigits(f: Fields)
    requires FieldsMatch(f)
    ensures AllDigits(FieldDigits(f.month)) && AllDigits(FieldDigits(f.day)) && AllDigits(FieldDigits(f.hour))
    ensures AllDigits(FieldDigits(f.minute)) && AllDigits(FieldDigits(f.second))
  {
  }

  /** The `datetime` fields denoted by matched field texts. */
  function FieldsValue(f: Fields): Timestamp
    requires FieldsMatch(f)
  {
    MatchedFieldsAreDigits(f);
    Timestamp(DigitsValue(f.year), FieldValue(f.month), FieldValue(f.day),
              FieldValue(f.hour), FieldValue(f.minute), FieldValue(f.second))
  }

  /**
    * `datetime.strptime(s, "%Y-%m-%dT%H:%M:%SZ")`: the date-time, or None
    * where Python raises ValueError (no match, text left over, or a field
    * combination `datetime` rejects).
    */
  function ParseTimestamp(s: string): (r: Option<Timestamp>)
    ensures r.Some? ==> Valid(r.value)
  {
    match SplitFields(s)
    case None => None
    case Some(f) =>
      if !FieldsMatch(f) then None
      else
        var t := FieldsValue(f);
        if Valid(t) then Some(t) else None
  }

  // ---------------------------------------------------------------------
  // The canonical text of a timestamp, and the round trip through it
  // ---------------------------------------------------------------------

  function Digits2(n: nat): (s: string)
    requires n < 100
    ensures |s| == 2 && AllDigits(s)
  {
    [DigitChar(n / 10), DigitChar(n % 10)]
  }

  function Digits4(n: nat): (s: string)
    requires n < 10000
    ensures |s| == 4 && AllDigits(s)
  {
    Digits2(n / 100) + Digits2(n % 100)
  }

  /** The zero-padded `YYYY-MM-DDTHH:MM:SSZ` text of a timestamp, as the published reports write it. */
  function Render(t: Timestamp): (s: string)
    requires Valid(t)
    ensures |s| == 20 && AllDigits(s[..4])
    ensures s[4] == '-' && s[7] == '-' && s[10] == 'T' && s[13] == ':' && s[16] == ':' && s[19] == 'Z'
  {
    Digits4(t.year) + "-" + Digits2(t.month) + "-" + Digits2(t.day) + "T"
    + Digits2(t.hour) + ":" + Digits2(t.minute) + ":" + Digits2(t.second) + "Z"
  }

  /** A separator-free part followed by a separator is cut off exactly there. */
  lemma {:induction false} CutAt(a: string, c: char, b: string, seps: set<char>)
    requires Avoids(a, seps)
    requires c in seps
    ensures Cut(a + [c] + b, seps) == Some((a, b))
  {
    var s := a + [c] + b;
    if a == [] {
      assert s[1..] == b;
    } else {
      assert s[1..] == a[1..] + [c] + b;
      CutAt(a[1..], c, b, seps);
      assert [a[0]] + a[1..] == a;
    }
  }

  lemma DigitsValue2(a: char, b: char)
    requires IsDigit(a) && IsDigit(b)
    ensures DigitsValue([a, b]) == 10 * DigitValue(a) + DigitValue(b)
  {
    assert [a, b][..1] == [a];
    assert [a][..0] == [];
    assert DigitsValue([a]) == DigitValue(a);
  }

  lemma Digits2Value(n: nat)
    requires n < 100
    ensures FieldDigits(Digits2(n)) == Digits2(n)
    ensures DigitsValue(Digits2(n)) == n
  {
    DigitsValue2(DigitChar(n / 10), DigitChar(n % 10));
  }

  lemma DigitsValueAppend2(a: string, b: string)
    requires AllDigits(a) && |b| == 2 && AllDigits(b)
    ensures AllDigits(a + b)
    ensures DigitsValue(a + b) == 100 * DigitsValue(a) + DigitsValue(b)
  {
    var s := a + b;
    var a1 := a + [b[0]];
    assert s[..|s| - 1] == a1 && s[|s| - 1] == b[1];
    assert a1[..|a1| - 1] == a && a1[|a1| - 1] == b[0];
    assert DigitsValue(a1) == 10 * DigitsValue(a) + DigitValue(b[0]);
    assert DigitsValue(s) == 10 * DigitsValue(a1) + DigitValue(b[1]);
    DigitsValue2(b[0], b[1]);
    assert b == [b[0], b[1]];
  }

  lemma Digits4Value(n: nat)
    requires n < 10000
    ensures DigitsValue(Digits4(n)) == n
  {
    Digits2Value(n / 100);
    Digits2Value(n % 100);
    DigitsValueAppend2(Digits2(n / 100), Digits2(n % 100));
  }

  /** The zero-padded fields of a valid timestamp match their `strptime` patterns. */
  lemma RenderedFieldsMatch(t: Timestamp)
    requires Valid(t)
    ensures MonthField(Digits2(t.month)) && DayField(Digits2(t.day)) && HourField(Digits2(t.hour))
    ensures MinuteField(Digits2(t.minute)) && SecondField(Digits2(t.second))
  {
  }

  /** Digits are none of the format's literal characters. */
  lemma DigitsAreNotSeparators(x: string)
    requires AllDigits(x)
    ensures forall k :: 0 <= k < |x| ==> x[k] !in DATE_SEP && x[k] !in DATE_TIME_SEP && x[k] !in TIME_SEP && x[k] !in ZONE
  {
  }

  /** Cutting a separator-free part followed by a separator of the first set leaves the rest to the other sets. */
  lemma CutAllAt(a: string, c: char, b: string, sep: set<char>, seps: seq<set<char>>, pieces: seq<string>)
    requires c in sep && forall k :: 0 <= k < |a| ==> a[k] !in sep
    requires CutAll(b, seps) == Some(pieces)
    ensures CutAll(a + [c] + b, [sep] + seps) == Some([a] + pieces)
  {
    CutAt(a, c, b, sep);
    assert ([sep] + seps)[1..] == seps;
  }

  /** Digit fields of a time of day joined by `:` and closed by `Z` cut back into those fields. */
  lemma CutClockFields(h: string, mi: string, se: string)
    requires AllDigits(h) && AllDigits(mi) && AllDigits(se)
    ensures CutAll(h + [':'] + (mi + [':'] + (se + ['Z'] + [])), [TIME_SEP] + ([TIME_SEP] + ([ZONE] + [])))
         == Some([h] + ([mi] + ([se] + [[]])))
  {
    DigitsAreNotSeparators(h);
    DigitsAreNotSeparators(mi);
    DigitsAreNotSeparators(se);
    var r4 := se + ['Z'] + [];
    CutAllAt(se, 'Z', [], ZONE, [], [[]]);
    CutAllAt(mi, ':', r4, TIME_SEP, [ZONE] + [], [se] + [[]]);
    CutAllAt(h, ':', mi + [':'] + r4, TIME_SEP, [TIME_SEP] + ([ZONE] + []), [mi] + ([se] + [[]]));
  }

  /** Digit fields joined by the format's literal characters cut back into those fields. */
  lemma CutDigitFields(mo: string, d: string, h: string, mi: string, se: string)
    requires AllDigits(mo) && AllDigits(d) && AllDigits(h) && AllDigits(mi) && AllDigits(se)
    ensures var r := CutAll(mo + ['-'] + (d + ['T'] + (h + [':'] + (mi + [':'] + (se + ['Z'] + [])))), FIELD_ENDS);
      r.Some? && |r.value| == 6 && r.value[0] == mo && r.value[1] == d && r.value[2] == h
      && r.value[3] == mi && r.value[4] == se && r.value[5] == []
  {
    DigitsAreNotSeparators(mo);
    DigitsAreNotSeparators(d);
    var e2 := [TIME_SEP] + ([TIME_SEP] + ([ZONE] + []));
    var p2 := [h] + ([mi] + ([se] + [[]]));
    var r2 := h + [':'] + (mi + [':'] + (se + ['Z'] + []));
    CutClockFields(h, mi, se);
    CutAllAt(d, 'T', r2, DATE_TIME_SEP, e2, p2);
    CutAllAt(mo, '-', d + ['T'] + r2, DATE_SEP, [DATE_TIME_SEP] + e2, [d] + p2);
    assert [DATE_SEP] + ([DATE_TIME_SEP] + e2) == FIELD_ENDS;
  }

  /** The canonical text cuts into its zero-padded fields. */
  lemma RenderSplits(t: Timestamp)
    requires Valid(t)
    ensures SplitFields(Render(t)) == Some(Fields(Digits4(t.year), Digits2(t.month), Digits2(t.day),
                                                  Digits2(t.hour), Digits2(t.minute), Digits2(t.second)))
  {
    var y, mo, d := Digits4(t.year), Digits2(t.month), Digits2(t.day);
    var h, mi, se := Digits2(t.hour), Digits2(t.minute), Digits2(t.second);
    var tail := mo + ['-'] + (d + ['T'] + (h + [':'] + (mi + [':'] + (se + ['Z'] + []))));
    var s := Render(t);
    assert s == y + ['-'] + tail;
    assert s[..4] == y && s[4] == '-' && s[5..] == tail;
    CutDigitFields(mo, d, h, mi, se);
  }

  /**
    * `strptime` reads back the canonical text of every valid timestamp: a
    * start time written as the reports write it is accepted and denotes
    * that same date-time.
    */
  lemma RenderParses(t: Timestamp)
    requires Valid(t)
    ensures ParseTimestamp(Render(t)) == Some(t)
  {
    RenderSplits(t);
    RenderedFieldsMatch(t);
    Digits4Value(t.year);
    Digits2Value(t.month);
    Digits2Value(t.day);
    Digits2Value(t.hour);
    Digits2Value(t.minute);
    Digits2Value(t.second);
  }

  // ---------------------------------------------------------------------
  // Exactly the texts `strptime` accepts
  // ---------------------------------------------------------------------

  /** The pieces with one literal character between each two: `p0 c0 p1 c1 ... pn`. */
  function Interleave(pieces: seq<string>, lits: seq<char>): string
    requires |pieces| == |lits| + 1
    decreases |lits|
  {
    if lits == [] then pieces[0] else pieces[0] + [lits[0]] + Interleave(pieces[1..], lits[1..])
  }

  /** Literal characters, one from each separator set, and pieces that each avoid the set that ends them. */
  predicate Separates(pieces: seq<string>, lits: seq<char>, seps: seq<set<char>>)
  {
    |pieces| == |seps| + 1 && |lits| == |seps|
    && forall k :: 0 <= k < |seps| ==> lits[k] in seps[k] && Avoids(pieces[k], seps[k])
  }

  /** Cutting at the separator sets in turn undoes the interleaving of pieces that avoid them. */
  lemma {:induction false} CutAllOfInterleave(pieces: seq<string>, lits: seq<char>, seps: seq<set<char>>)
    requires Separates(pieces, lits, seps)
    ensures CutAll(Interleave(pieces, lits), seps) == Some(pieces)
    decreases |seps|
  {
    if seps != [] {
      assert Separates(pieces[1..], lits[1..], seps[1..]) by {
        forall k | 0 <= k < |seps| - 1
          ensures lits[1..][k] in seps[1..][k] && Avoids(pieces[1..][k], seps[1..][k])
        {
          assert lits[1..][k] == lits[k + 1] && seps[1..][k] == seps[k + 1] && pieces[1..][k] == pieces[k + 1];
        }
      }
      CutAllOfInterleave(pieces[1..], lits[1..], seps[1..]);
      CutAllAt(pieces[0], lits[0], Interleave(pieces[1..], lits[1..]), seps[0], seps[1..], pieces[1..]);
      assert [seps[0]] + seps[1..] == seps;
      assert [pieces[0]] + pieces[1..] == pieces;
    } else {
      assert pieces == [pieces[0]];
    }
  }

  /** Whatever `CutAll` cuts is the interleaving of its pieces with the separators it found. */
  lemma {:induction false} CutAllInterleaves(s: string, seps: seq<set<char>>) returns (lits: seq<char>)
    requires CutAll(s, seps).Some?
    ensures Separates(CutAll(s, seps).value, lits, seps)
    ensures s == Interleave(CutAll(s, seps).value, lits)
    decreases |seps|
  {
    if seps == [] {
      lits := [];
    } else {
      var (piece, rest) := Cut(s, seps[0]).value;
      var more := CutAllInterleaves(rest, seps[1..]);
      var pieces := CutAll(s, seps).value;
      lits := [s[|piece|]] + more;
      assert pieces == [piece] + CutAll(rest, seps[1..]).value;
      assert pieces[1..] == CutAll(rest, seps[1..]).value;
      assert lits[1..] == more;
      forall k | 0 <= k < |seps|
        ensures lits[k] in seps[k] && Avoids(pieces[k], seps[k])
      {
        if k > 0 {
          assert lits[k] == more[k - 1] && pieces[k] == pieces[1..][k - 1] && seps[k] == seps[1..][k - 1];
        }
      }
    }
  }

  /** The five field texts after the year, and the empty rest after the closing `Z`. */
  function FieldPieces(f: Fields): (pieces: seq<string>)
    ensures |pieces| == 6
  {
    [f.month, f.day, f.hour, f.minute, f.second, []]
  }

  /** The text of the format for the given fields and literal characters after the year's `-`. */
  function FormatText(f: Fields, lits: seq<char>): string
    requires |lits| == 5
  {
    f.year + ['-'] + Interleave(FieldPieces(f), lits)
  }

  /** Fields that match their patterns hold only digits and the blank `%d` allows, none of them a literal of the format. */
  lemma MatchedFieldsSeparate(f: Fields, lits: seq<char>)
    requires FieldsMatch(f)
    requires |lits| == 5 && forall k :: 0 <= k < 5 ==> lits[k] in FIELD_ENDS[k]
    ensures Separates(FieldPieces(f), lits, FIELD_ENDS)
  {
    var pieces := FieldPieces(f);
    forall k | 0 <= k < 5
      ensures Avoids(pieces[k], FIELD_ENDS[k])
    {
      forall j | 0 <= j < |pieces[k]|
        ensures pieces[k][j] !in FIELD_ENDS[k]
      {
        assert IsDigit(pieces[k][j]) || pieces[k][j] == ' ';
      }
    }
  }

  /**
    * Every text `strptime` accepts is a year, `-`, and the other five fields
    * each followed by its literal (`-`, `T`/`t`, `:`, `:`, `Z`/`z`), with
    * every field matching its pattern; the date-time is the one those fields
    * denote.
    */
  lemma ParseAccepted(s: string) returns (f: Fields, lits: seq<char>)
    requires ParseTimestamp(s).Some?
    ensures |lits| == 5 && forall k :: 0 <= k < 5 ==> lits[k] in FIELD_ENDS[k]
    ensures FieldsMatch(f) && s == FormatText(f, lits)
    ensures ParseTimestamp(s).value == FieldsValue(f)
  {
    f := SplitFields(s).value;
    var pieces := CutAll(s[5..], FIELD_ENDS).value;
    lits := CutAllInterleaves(s[5..], FIELD_ENDS);
    assert pieces == FieldPieces(f);
    assert s == s[..4] + ['-'] + s[5..];
  }

  /**
    * Conversely, `strptime` accepts every such text whose fields form a
    * valid date-time, giving that date-time, and rejects it otherwise.
    */
  lemma ParseOfFormatText(f: Fields, lits: seq<char>)
    requires |lits| == 5 && forall k :: 0 <= k < 5 ==> lits[k] in FIELD_ENDS[k]
    requires FieldsMatch(f)
    ensures ParseTimestamp(FormatText(f, lits)) == if Valid(FieldsValue(f)) then Some(FieldsValue(f)) else None
  {
    var s := FormatText(f, lits);
    MatchedFieldsSeparate(f, lits);
    CutAllOfInterleave(FieldPieces(f), lits, FIELD_ENDS);
    assert s[..4] == f.year && s[4] == '-' && s[5..] == Interleave(FieldPieces(f), lits);
    assert SplitFields(s) == Some(f);
  }
}
