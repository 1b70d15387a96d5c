/** The attendance card of the home screen: the total and the unjustified time missed
    in the default period, summed over its absences and delays, and the importance
    level the card reports to the dashboard that ranks its cards.

    The source sums hours as floating-point numbers; this model sums exact integer
    minutes and proves that the source's hour-based normalisation gives the same
    hours and minutes on them. A sum that would be NaN in the source is `None`. */
module AttendanceElement {
  import opened Wrappers
  import opened Strings
  import JsMath

  /** An absence; `hours` is its duration written `"<H>h<M>"`. */
  datatype Absence = Absence(hours: string, justified: bool)

  /** A delay of `duration` minutes. */
  datatype Delay = Delay(duration: nat, justified: bool)

  /** The attendance record of one period. */
  datatype Attendance = Attendance(absences: seq<Absence>, delays: seq<Delay>)

  datatype TimeSpan = TimeSpan(hours: int, minutes: int)

  /** What `formatTotalMissed` returns; `None` stands for a time span whose hours and
      minutes are NaN. */
  datatype TotalMissed = TotalMissed(total: Option<TimeSpan>, unJustified: Option<TimeSpan>)

  const Zero := TimeSpan(0, 0)

  // ---------------------------------------------------------------------------
  // One record's duration
  // ---------------------------------------------------------------------------

  /** The minutes of an absence duration, read as `hours.split("h").map(Number)`: the
      first piece is whole hours, the second minutes, and a missing or non-numeric
      minute piece counts as 0 (`minutes || 0`). None when the hour piece is not a
      number, where the source's sum becomes NaN. */
  function AbsenceMinutes(text: string): (r: Option<nat>)
    ensures r.Some? <==> AllDigits(Split(text, "h")[0])
    ensures r.Some? ==> r.value >= DigitsValue(Split(text, "h")[0]) * 60
  {
    var parts := Split(text, "h");
    match ParseNumber(parts[0])
    case None => None
    case Some(h) => Some(h * 60 + (if |parts| >= 2 then ParseNumber(parts[1]).GetOr(0) else 0))
  }

  /** `"<a>h<b>"`, when neither piece holds an "h", is read from its two pieces. */
  lemma AbsenceTwoPieces(a: string, b: string)
    requires 'h' !in a && 'h' !in b
    ensures AbsenceMinutes(a + "h" + b)
         == if ParseNumber(a).None? then None else Some(ParseNumber(a).value * 60 + ParseNumber(b).GetOr(0))
  {
    SplitAfter(a, "h", b);
    SplitWhole(b, "h");
    assert Split(a + "h" + b, "h") == [a, b];
  }

  /** `"<H>h<M>"` is H hours and M minutes. */
  lemma AbsenceReadsHoursAndMinutes(h: nat, m: nat)
    ensures AbsenceMinutes(ShowNat(h) + "h" + ShowNat(m)) == Some(h * 60 + m)
  {
    var a, b := ShowNat(h), ShowNat(m);
    ShownHasNoH(h);
    ShownHasNoH(m);
    ParseShow(h);
    ParseShow(m);
    AbsenceReadsNumbers(a, b, h, m);
  }

  lemma AbsenceReadsNumbers(a: string, b: string, h: nat, m: nat)
    requires 'h' !in a && 'h' !in b
    requires ParseNumber(a) == Some(h) && ParseNumber(b) == Some(m)
    ensures AbsenceMinutes(a + "h" + b) == Some(h * 60 + m)
  {
    AbsenceTwoPieces(a, b);
  }

  /** `"<H>h"` and `"<H>"` are H whole hours: the missing minute piece counts as 0. */
  lemma AbsenceReadsWholeHours(h: nat)
    ensures AbsenceMinutes(ShowNat(h) + "h") == Some(h * 60)
    ensures AbsenceMinutes(ShowNat(h)) == Some(h * 60)
  {
    var a := ShowNat(h);
    ShownHasNoH(h);
    ParseShow(h);
    AbsenceTwoPieces(a, "");
    assert a + "h" + "" == a + "h";
    SplitWhole(a, "h");
  }

  /** A minute piece that is not a number counts as 0, ... */
  lemma AbsenceIgnoresBadMinutes(h: nat, b: string)
    requires 'h' !in b && !AllDigits(b)
    ensures AbsenceMinutes(ShowNat(h) + "h" + b) == Some(h * 60)
  {
    ShownHasNoH(h);
    AbsenceTwoPieces(ShowNat(h), b);
    ParseShow(h);
  }

  /** ... while an hour piece that is not a number makes the duration NaN. */
  lemma AbsenceRejectsBadHours(a: string, b: string)
    requires 'h' !in a && !AllDigits(a)
    ensures AbsenceMinutes(a + "h" + b) == None
  {
    SplitAfter(a, "h", b);
  }

  /** A delay's contribution, `Math.floor(d / 60)` hours and `d % 60` minutes, is
      exactly its `d` minutes. */
  function DelayMinutes(duration: nat): (m: nat)
    ensures m == duration
  {
    JsMath.FloorDiv(duration, 60) * 60 + JsMath.Rem(duration, 60)
  }

  // ---------------------------------------------------------------------------
  // The folds
  // ---------------------------------------------------------------------------

  /** Whether a record enters a sum: every record for the total, only the unjustified
      ones for the unjustified sum. */
  predicate Counts(justified: bool, unjustifiedOnly: bool) {
    !unjustifiedOnly || !justified
  }

  /** Addition of minute sums, NaN (None) absorbing. */
  function Add(x: Option<nat>, y: Option<nat>): Option<nat> {
    if x.Some? && y.Some? then Some(x.value + y.value) else None
  }

  /** What one absence adds to a sum. */
  function AbsenceContribution(a: Absence, unjustifiedOnly: bool): Option<nat> {
    if Counts(a.justified, unjustifiedOnly) then AbsenceMinutes(a.hours) else Some(0)
  }

  /** What one delay adds to a sum. */
  function DelayContribution(d: Delay, unjustifiedOnly: bool): nat {
    if Counts(d.justified, unjustifiedOnly) then DelayMinutes(d.duration) else 0
  }

  /** `absences.reduce(..., acc)`: left to right, each counted absence added to the
      accumulator. */
  function SumAbsences(absences: seq<Absence>, acc: Option<nat>, unjustifiedOnly: bool): (r: Option<nat>)
    ensures acc.None? ==> r.None?
    ensures r.Some? ==> acc.Some? && r.value >= acc.value
    decreases |absences|
  {
    if absences == [] then acc
    else SumAbsences(absences[1..], Add(acc, AbsenceContribution(absences[0], unjustifiedOnly)), unjustifiedOnly)
  }

  /** `delays.reduce(..., acc)`. */
  function SumDelays(delays: seq<Delay>, acc: nat, unjustifiedOnly: bool): (r: nat)
    ensures r >= acc
    ensures unjustifiedOnly && (forall i :: 0 <= i < |delays| ==> delays[i].justified) ==> r == acc
    decreases |delays|
  {
    if delays == [] then acc
    else SumDelays(delays[1..], acc + DelayContribution(delays[0], unjustifiedOnly), unjustifiedOnly)
  }

  /** The minutes missed in a period: the absence sum plus the delay sum, both started
      at 0. For the total, every absence and delay; for the unjustified time, only the
      unjustified ones, each counted whole. */
  function MissedMinutes(data: Attendance, unjustifiedOnly: bool): (r: Option<nat>)
    ensures !unjustifiedOnly ==> r == Add(AbsenceTotal(data.absences), Some(TotalDuration(data.delays)))
    ensures unjustifiedOnly
        ==> r == Add(AbsenceTotal(UnjustifiedAbsences(data.absences)), Some(TotalDuration(UnjustifiedDelays(data.delays))))
  {
    SumAbsencesTotal(data.absences);
    SumDelaysTotal(data.delays);
    SumAbsencesUnjustified(data.absences);
    SumDelaysUnjustified(data.delays);
    Add(SumAbsences(data.absences, Some(0), unjustifiedOnly), Some(SumDelays(data.delays, 0, unjustifiedOnly)))
  }

  /** The absence fold started from any accumulator is that accumulator plus the fold from 0. */
  lemma {:induction false} SumAbsencesFrom(absences: seq<Absence>, acc: Option<nat>, unjustifiedOnly: bool)
    ensures SumAbsences(absences, acc, unjustifiedOnly) == Add(acc, SumAbsences(absences, Some(0), unjustifiedOnly))
    decreases |absences|
  {
    if absences != [] {
      var c := AbsenceContribution(absences[0], unjustifiedOnly);
      var tail := absences[1..];
      SumAbsencesFrom(tail, Add(acc, c), unjustifiedOnly);
      SumAbsencesFrom(tail, Add(Some(0), c), unjustifiedOnly);
      AddShift(acc, c, SumAbsences(tail, Some(0), unjustifiedOnly));
    }
  }

  /** Adding `c` then `rest` to `acc` is adding to `acc` what `c` then `rest` add to 0. */
  lemma AddShift(acc: Option<nat>, c: Option<nat>, rest: Option<nat>)
    ensures Add(Add(acc, c), rest) == Add(acc, Add(Add(Some(0), c), rest))
  {
  }

  /** Each absence adds its own contribution to the sum, in list order. */
  lemma {:induction false} SumAbsencesSnoc(absences: seq<Absence>, a: Absence, unjustifiedOnly: bool)
    ensures SumAbsences(absences + [a], Some(0), unjustifiedOnly)
         == Add(SumAbsences(absences, Some(0), unjustifiedOnly), AbsenceContribution(a, unjustifiedOnly))
    decreases |absences|
  {
    if absences == [] {
      assert [] + [a] == [a];
      assert [a][1..] == [];
    } else {
      var u := unjustifiedOnly;
      var head := Add(Some(0), AbsenceContribution(absences[0], u));
      var tail := absences[1..];
      assert (absences + [a])[1..] == tail + [a];
      assert SumAbsences(absences + [a], Some(0), u) == SumAbsences(tail + [a], head, u);
      assert SumAbsences(absences, Some(0), u) == SumAbsences(tail, head, u);
      SumAbsencesFrom(tail + [a], head, u);
      SumAbsencesFrom(tail, head, u);
      SumAbsencesSnoc(tail, a, u);
      AddAssoc(head, SumAbsences(tail, Some(0), u), AbsenceContribution(a, u));
    }
  }

  /** Addition of minute sums is associative, NaN included. */
  lemma AddAssoc(x: Option<nat>, y: Option<nat>, z: Option<nat>)
    ensures Add(x, Add(y, z)) == Add(Add(x, y), z)
  {
  }

  /** The absence sum is a number exactly when every counted absence's hour piece is one. */
  lemma {:induction false} SumAbsencesDefined(absences: seq<Absence>, unjustifiedOnly: bool)
    ensures SumAbsences(absences, Some(0), unjustifiedOnly).Some?
        <==> forall i :: 0 <= i < |absences| ==> AbsenceContribution(absences[i], unjustifiedOnly).Some?
    decreases |absences|
  {
    if absences != [] {
      var c := AbsenceContribution(absences[0], unjustifiedOnly);
      SumAbsencesFrom(absences[1..], Add(Some(0), c), unjustifiedOnly);
      SumAbsencesDefined(absences[1..], unjustifiedOnly);
      assert forall i :: 1 <= i < |absences| ==> absences[i] == absences[1..][i - 1];
    }
  }

  /** The unjustified absence sum is a number whenever the total one is, and never exceeds it. */
  lemma {:induction false} SumAbsencesUnjustifiedWithin(absences: seq<Absence>)
    requires SumAbsences(absences, Some(0), false).Some?
    ensures SumAbsences(absences, Some(0), true).Some?
    ensures SumAbsences(absences, Some(0), true).value <= SumAbsences(absences, Some(0), false).value
    decreases |absences|
  {
    if absences != [] {
      var ct := AbsenceContribution(absences[0], false);
      var cu := AbsenceContribution(absences[0], true);
      SumAbsencesFrom(absences[1..], Add(Some(0), ct), false);
      SumAbsencesFrom(absences[1..], Add(Some(0), cu), true);
      SumAbsencesUnjustifiedWithin(absences[1..]);
    }
  }

  /** When every absence is justified, the unjustified absence sum stays at its start. */
  lemma {:induction false} SumAbsencesAllJustified(absences: seq<Absence>, acc: Option<nat>)
    requires forall i :: 0 <= i < |absences| ==> absences[i].justified
    ensures SumAbsences(absences, acc, true) == Add(acc, Some(0))
    decreases |absences|
  {
    if absences != [] {
      SumAbsencesAllJustified(absences[1..], Add(acc, Some(0)));
    }
  }

  /** The delay fold started from any accumulator is that accumulator plus the fold from 0. */
  lemma {:induction false} SumDelaysFrom(delays: seq<Delay>, acc: nat, unjustifiedOnly: bool)
    ensures SumDelays(delays, acc, unjustifiedOnly) == acc + SumDelays(delays, 0, unjustifiedOnly)
    decreases |delays|
  {
    if delays != [] {
      var c := DelayContribution(delays[0], unjustifiedOnly);
      SumDelaysFrom(delays[1..], acc + c, unjustifiedOnly);
      SumDelaysFrom(delays[1..], c, unjustifiedOnly);
    }
  }

  /** The plain sum of the delays' durations, as a reference for the total fold. */
  function TotalDuration(delays: seq<Delay>): nat
    decreases |delays|
  {
    if delays == [] then 0 else delays[0].duration + TotalDuration(delays[1..])
  }

  /** The plain sum of the absences' durations, NaN as soon as one of them is NaN: the
      reference for the absence folds. */
  function AbsenceTotal(absences: seq<Absence>): Option<nat>
    decreases |absences|
  {
    if absences == [] then Some(0) else Add(AbsenceMinutes(absences[0].hours), AbsenceTotal(absences[1..]))
  }

  /** The absences that are not justified, in order. */
  function UnjustifiedAbsences(absences: seq<Absence>): (r: seq<Absence>)
    ensures forall a :: a in r <==> a in absences && !a.justified
    decreases |absences|
  {
    if absences == [] then []
    else
      assert forall a :: a in absences <==> a == absences[0] || a in absences[1..];
      (if absences[0].justified then [] else [absences[0]]) + UnjustifiedAbsences(absences[1..])
  }

  /** The delays that are not justified, in order. */
  function UnjustifiedDelays(delays: seq<Delay>): (r: seq<Delay>)
    ensures forall d :: d in r <==> d in delays && !d.justified
    decreases |delays|
  {
    if delays == [] then []
    else
      assert forall d :: d in delays <==> d == delays[0] || d in delays[1..];
      (if delays[0].justified then [] else [delays[0]]) + UnjustifiedDelays(delays[1..])
  }

  /** Both filters keep every record they keep as often as it occurs and in its place:
      the unjustified records of a concatenation are those of each part, in order, ... */
  lemma {:induction false} UnjustifiedAbsencesAppend(a: seq<Absence>, b: seq<Absence>)
    ensures UnjustifiedAbsences(a + b) == UnjustifiedAbsences(a) + UnjustifiedAbsences(b)
    decreases |a|
  {
    if a == [] {
      assert a + b == b;
    } else {
      var x, t := (if a[0].justified then [] else [a[0]]), a[1..];
      assert (a + b)[0] == a[0] && (a + b)[1..] == t + b;
      calc {
        UnjustifiedAbsences(a + b);
        x + UnjustifiedAbsences(t + b);
        { UnjustifiedAbsencesAppend(t, b); }
        x + (UnjustifiedAbsences(t) + UnjustifiedAbsences(b));
        (x + UnjustifiedAbsences(t)) + UnjustifiedAbsences(b);
        UnjustifiedAbsences(a) + UnjustifiedAbsences(b);
      }
    }
  }

  /** ... and one absence is kept exactly when it is not justified. */
  lemma UnjustifiedAbsencesSingle(x: Absence)
    ensures UnjustifiedAbsences([x]) == if x.justified then [] else [x]
  {
    assert [x][1..] == [];
  }

  lemma {:induction false} UnjustifiedDelaysAppend(a: seq<Delay>, b: seq<Delay>)
    ensures UnjustifiedDelays(a + b) == UnjustifiedDelays(a) + UnjustifiedDelays(b)
    decreases |a|
  {
    if a == [] {
      assert a + b == b;
    } else {
      var x, t := (if a[0].justified then [] else [a[0]]), a[1..];
      assert (a + b)[0] == a[0] && (a + b)[1..] == t + b;
      calc {
        UnjustifiedDelays(a + b);
        x + UnjustifiedDelays(t + b);
        { UnjustifiedDelaysAppend(t, b); }
        x + (UnjustifiedDelays(t) + UnjustifiedDelays(b));
        (x + UnjustifiedDelays(t)) + UnjustifiedDelays(b);
        UnjustifiedDelays(a) + UnjustifiedDelays(b);
      }
    }
  }

  lemma UnjustifiedDelaysSingle(x: Delay)
    ensures UnjustifiedDelays([x]) == if x.justified then [] else [x]
  {
    assert [x][1..] == [];
  }

  /** The reference absence sum is a number exactly when every duration is one. */
  lemma {:induction false} AbsenceTotalDefined(absences: seq<Absence>)
    ensures AbsenceTotal(absences).Some?
        <==> forall i :: 0 <= i < |absences| ==> AbsenceMinutes(absences[i].hours).Some?
    decreases |absences|
  {
    if absences != [] {
      AbsenceTotalDefined(absences[1..]);
      assert forall i :: 1 <= i < |absences| ==> absences[i] == absences[1..][i - 1];
    }
  }

  /** The total delay fold adds up every delay's duration, justified or not. */
  lemma {:induction false} SumDelaysTotal(delays: seq<Delay>)
    ensures SumDelays(delays, 0, false) == TotalDuration(delays)
    decreases |delays|
  {
    if delays != [] {
      SumDelaysFrom(delays[1..], DelayContribution(delays[0], false), false);
      SumDelaysTotal(delays[1..]);
    }
  }

  /** The unjustified delay fold adds up the durations of the unjustified delays, each
      whole, and nothing else. */
  lemma {:induction false} SumDelaysUnjustified(delays: seq<Delay>)
    ensures SumDelays(delays, 0, true) == TotalDuration(UnjustifiedDelays(delays))
    decreases |delays|
  {
    if delays != [] {
      var x, rest := delays[0], UnjustifiedDelays(delays[1..]);
      SumDelaysFrom(delays[1..], DelayContribution(x, true), true);
      SumDelaysUnjustified(delays[1..]);
      if x.justified {
        assert UnjustifiedDelays(delays) == rest;
      } else {
        assert UnjustifiedDelays(delays) == [x] + rest;
        assert ([x] + rest)[1..] == rest;
        assert TotalDuration([x] + rest) == x.duration + TotalDuration(rest);
      }
    }
  }

  /** The total absence fold is the plain sum of every absence's duration. */
  lemma {:induction false} SumAbsencesTotal(absences: seq<Absence>)
    ensures SumAbsences(absences, Some(0), false) == AbsenceTotal(absences)
    decreases |absences|
  {
    if absences != [] {
      var c := AbsenceContribution(absences[0], false);
      SumAbsencesFrom(absences[1..], Add(Some(0), c), false);
      SumAbsencesTotal(absences[1..]);
    }
  }

  /** The unjustified absence fold is the plain sum of the unjustified absences'
      durations, each whole, and nothing else. */
  lemma {:induction false} SumAbsencesUnjustified(absences: seq<Absence>)
    ensures SumAbsences(absences, Some(0), true) == AbsenceTotal(UnjustifiedAbsences(absences))
    decreases |absences|
  {
    if absences != [] {
      var x, rest := absences[0], UnjustifiedAbsences(absences[1..]);
      var c := AbsenceContribution(x, true);
      SumAbsencesFrom(absences[1..], Add(Some(0), c), true);
      SumAbsencesUnjustified(absences[1..]);
      if x.justified {
        assert UnjustifiedAbsences(absences) == rest;
        UnjustifiedAbsenceStep(SumAbsences(absences[1..], Some(0), true), Some(0));
      } else {
        assert UnjustifiedAbsences(absences) == [x] + rest;
        assert ([x] + rest)[1..] == rest;
        assert AbsenceTotal([x] + rest) == Add(AbsenceMinutes(x.hours), AbsenceTotal(rest));
        UnjustifiedAbsenceStep(SumAbsences(absences[1..], Some(0), true), c);
      }
    }
  }

  lemma UnjustifiedAbsenceStep(tail: Option<nat>, c: Option<nat>)
    ensures Add(Add(Some(0), c), tail) == Add(c, tail)
  {
  }

  /** The unjustified delay sum never exceeds the total one. */
  lemma {:induction false} SumDelaysUnjustifiedWithin(delays: seq<Delay>)
    ensures SumDelays(delays, 0, true) <= SumDelays(delays, 0, false)
    decreases |delays|
  {
    if delays != [] {
      SumDelaysFrom(delays[1..], DelayContribution(delays[0], false), false);
      SumDelaysFrom(delays[1..], DelayContribution(delays[0], true), true);
      SumDelaysUnjustifiedWithin(delays[1..]);
    }
  }

  /** When every delay is justified, the unjustified delay sum stays at its start. */
  lemma {:induction false} SumDelaysAllJustified(delays: seq<Delay>, acc: nat)
    requires forall i :: 0 <= i < |delays| ==> delays[i].justified
    ensures SumDelays(delays, acc, true) == acc
    decreases |delays|
  {
    if delays != [] {
      SumDelaysAllJustified(delays[1..], acc);
    }
  }

  // ---------------------------------------------------------------------------
  // Normalisation
  // ---------------------------------------------------------------------------

  /** A minute count as whole hours and the minutes left over. */
  function Normalize(m: nat): (t: TimeSpan)
    ensures t.hours >= 0 && 0 <= t.minutes < 60
    ensures t.hours * 60 + t.minutes == m
  {
    TimeSpan(m / 60, m % 60)
  }

  /** No other hours-and-minutes pair with fewer than 60 minutes stands for `m` minutes. */
  lemma NormalizeUnique(m: nat, t: TimeSpan)
    requires t.hours >= 0 && 0 <= t.minutes < 60 && t.hours * 60 + t.minutes == m
    ensures t == Normalize(m)
  {
  }

  /** The source's normalisation of a sum of hours: `Math.floor(sum)` hours and
      `Math.round((sum % 1) * 60)` minutes. */
  function NormalizeHours(sum: real): (t: TimeSpan)
    requires sum >= 0.0
    ensures t.hours >= 0 && t.hours as real <= sum < t.hours as real + 1.0
    ensures 0 <= t.minutes <= 60
  {
    TimeSpan(sum.Floor, JsMath.Round((sum - sum.Floor as real) * 60.0))
  }

  /** On a whole number of minutes, the source's hour-based normalisation is exact:
      it never yields 60 minutes. */
  lemma NormalizeHoursExact(m: nat)
    ensures NormalizeHours(m as real / 60.0) == Normalize(m)
  {
    var q, r := m / 60, m % 60;
    var x := m as real / 60.0;
    assert x == q as real + r as real / 60.0;
    assert x.Floor == q;
    assert (x - q as real) * 60.0 == r as real;
    var rounded := JsMath.Round(r as real);
    assert rounded == r;
  }

  /** `Normalize` applied under NaN. */
  function NormalizeSum(m: Option<nat>): (t: Option<TimeSpan>)
    ensures t.Some? <==> m.Some?
    ensures t.Some? ==> t.value.hours * 60 + t.value.minutes == m.value && 0 <= t.value.minutes < 60
  {
    if m.Some? then Some(Normalize(m.value)) else None
  }

  // ---------------------------------------------------------------------------
  // formatTotalMissed
  // ---------------------------------------------------------------------------

  /** `formatTotalMissed`: zero for both when there is no period, otherwise the total and
      the unjustified missed time as normalised time spans. */
  function FormatTotalMissed(data: Option<Attendance>): (t: TotalMissed)
    ensures data.None? ==> t == TotalMissed(Some(Zero), Some(Zero))
    ensures data.Some? && data.value.absences == [] && data.value.delays == []
        ==> t == TotalMissed(Some(Zero), Some(Zero))
    ensures t.total.Some? ==> 0 <= t.total.value.minutes < 60 && t.total.value.hours >= 0
    ensures t.unJustified.Some? ==> 0 <= t.unJustified.value.minutes < 60 && t.unJustified.value.hours >= 0
  {
    match data
    case None => TotalMissed(Some(Zero), Some(Zero))
    case Some(d) => TotalMissed(NormalizeSum(MissedMinutes(d, false)), NormalizeSum(MissedMinutes(d, true)))
  }

  /** The minutes a time span stands for. */
  function SpanMinutes(t: TimeSpan): int {
    t.hours * 60 + t.minutes
  }

  /** The total is the sum of every absence and every delay, justified or not: NaN when
      some hour piece is not a number, otherwise all absence durations plus all delay
      durations. */
  lemma TotalIsSumOfAll(d: Attendance)
    ensures var t := FormatTotalMissed(Some(d));
      && (t.total.Some? <==> forall i :: 0 <= i < |d.absences| ==> AbsenceMinutes(d.absences[i].hours).Some?)
      && (t.total.Some? ==>
            AbsenceTotal(d.absences).Some?
            && SpanMinutes(t.total.value) == AbsenceTotal(d.absences).value + TotalDuration(d.delays))
  {
    SumDelaysTotal(d.delays);
    SumAbsencesTotal(d.absences);
    AbsenceTotalDefined(d.absences);
  }

  /** The unjustified time is the sum of the unjustified absences and delays only, each
      whole: NaN when one of those absences has a non-numeric hour piece. */
  lemma UnjustifiedIsSumOfUnjustified(d: Attendance)
    ensures var t := FormatTotalMissed(Some(d));
      var ua := UnjustifiedAbsences(d.absences);
      && (t.unJustified.Some? <==> forall i :: 0 <= i < |ua| ==> AbsenceMinutes(ua[i].hours).Some?)
      && (t.unJustified.Some? ==>
            AbsenceTotal(ua).Some?
            && SpanMinutes(t.unJustified.value) == AbsenceTotal(ua).value + TotalDuration(UnjustifiedDelays(d.delays)))
  {
    SumDelaysUnjustified(d.delays);
    SumAbsencesUnjustified(d.absences);
    AbsenceTotalDefined(UnjustifiedAbsences(d.absences));
  }

  /** An unjustified absence of 2h30 and a justified delay of 45 minutes: 3h15 missed in
      all, 2h30 of it unjustified. */
  lemma WorkedExample()
    ensures FormatTotalMissed(Some(Attendance([Absence("2h30", false)], [Delay(45, true)])))
         == TotalMissed(Some(TimeSpan(3, 15)), Some(TimeSpan(2, 30)))
  {
    TwoHoursThirty();
    OneAbsenceOneDelay(Absence("2h30", false), Delay(45, true));
  }

  /** One unjustified absence of 150 minutes and one justified delay of 45 minutes. */
  lemma OneAbsenceOneDelay(a: Absence, d: Delay)
    requires AbsenceMinutes(a.hours) == Some(150) && !a.justified
    requires d.duration == 45 && d.justified
    ensures FormatTotalMissed(Some(Attendance([a], [d])))
         == TotalMissed(Some(TimeSpan(3, 15)), Some(TimeSpan(2, 30)))
  {
    var abs, ds := [a], [d];
    assert abs[1..] == [] && ds[1..] == [];
    assert AbsenceTotal(abs) == Some(150);
    assert TotalDuration(ds) == 45;
    assert UnjustifiedAbsences(abs) == abs;
    assert UnjustifiedDelays(ds) == [];
    assert Normalize(195) == TimeSpan(3, 15);
    assert Normalize(150) == TimeSpan(2, 30);
  }

  /** `"2h30"` is 150 minutes. */
  lemma TwoHoursThirty()
    ensures AbsenceMinutes("2h30") == Some(150)
  {
    assert "2h30" == "2" + "h" + "30";
    assert 'h' !in "2" && 'h' !in "30";
    assert "30"[..1] == "3";
    AbsenceReadsNumbers("2", "30", 2, 30);
  }

  /** The unjustified time is a number whenever the total is, and never exceeds it. */
  lemma UnjustifiedWithinTotal(d: Attendance)
    ensures var t := FormatTotalMissed(Some(d));
      t.total.Some? ==> t.unJustified.Some? && SpanMinutes(t.unJustified.value) <= SpanMinutes(t.total.value)
  {
    if SumAbsences(d.absences, Some(0), false).Some? {
      SumAbsencesUnjustifiedWithin(d.absences);
    }
    SumDelaysUnjustifiedWithin(d.delays);
  }

  /** When every absence and every delay is justified, nothing is unjustified. */
  lemma AllJustifiedNothingUnjustified(d: Attendance)
    requires forall i :: 0 <= i < |d.absences| ==> d.absences[i].justified
    requires forall i :: 0 <= i < |d.delays| ==> d.delays[i].justified
    ensures FormatTotalMissed(Some(d)).unJustified == Some(Zero)
  {
    SumAbsencesAllJustified(d.absences, Some(0));
    SumDelaysAllJustified(d.delays, 0);
  }

  // ---------------------------------------------------------------------------
  // The card
  // ---------------------------------------------------------------------------

  /** The period the card reads: `attendances[defaultPeriod]` when both store values are
      truthy (the empty key is falsy) and the key is present; null or undefined otherwise. */
  function SelectedPeriod(attendances: Option<map<string, Attendance>>, defaultPeriod: Option<string>): (r: Option<Attendance>)
    ensures r.Some? <==> attendances.Some? && defaultPeriod.Some? && defaultPeriod.value != ""
                         && defaultPeriod.value in attendances.value
    ensures r.Some? ==> r.value == attendances.value[defaultPeriod.value]
  {
    if attendances.Some? && defaultPeriod.Some? && defaultPeriod.value != "" && defaultPeriod.value in attendances.value
    then Some(attendances.value[defaultPeriod.value])
    else None
  }

  /** `ImportanceHandler`: the level reported to the dashboard. */
  function Importance(attendances: Option<map<string, Attendance>>, defaultPeriod: Option<string>): (level: int)
    ensures level == 3 || level == 0
  {
    if attendances.Some? && defaultPeriod.Some? && defaultPeriod.value != "" then
      var t := FormatTotalMissed(SelectedPeriod(attendances, defaultPeriod));
      // NaN > 0 is false
      if t.total.Some? && (t.total.value.hours > 0 || t.total.value.minutes > 0) then 3 else 0
    else 0
  }

  /** The level is 3 exactly when the shown period has missed time, and 0 when there is
      no attendance data, no default period, no record for it, or nothing missed. */
  lemma ImportanceIffMissed(attendances: Option<map<string, Attendance>>, defaultPeriod: Option<string>)
    ensures var p := SelectedPeriod(attendances, defaultPeriod);
      (Importance(attendances, defaultPeriod) == 3)
        == (p.Some? && MissedMinutes(p.value, false).Some? && MissedMinutes(p.value, false).value > 0)
  {
  }

  /** What the card shows: the "no absence" message or the missed-time summary. */
  datatype Card = NoAbsence(description: string) | Summary(totalMissed: TotalMissed)

  /** The card for the current store values. */
  function AttendanceCard(attendances: Option<map<string, Attendance>>, defaultPeriod: Option<string>): (c: Card)
    ensures c.NoAbsence? <==> (SelectedPeriod(attendances, defaultPeriod).None?
                              || |SelectedPeriod(attendances, defaultPeriod).value.absences| == 0)
    ensures c.Summary? ==> c.totalMissed == FormatTotalMissed(SelectedPeriod(attendances, defaultPeriod))
  {
    var p := SelectedPeriod(attendances, defaultPeriod);
    if p.None? || |p.value.absences| == 0 then
      NoAbsence(
        if defaultPeriod.Some? && defaultPeriod.value != ""
        then "Tu n'as pas d'absences au " + defaultPeriod.value + "."
        else "Tu n'as pas d'absences pour cette période.")
    else Summary(FormatTotalMissed(p))
  }

  /** Delays alone never bring up the summary: a period without absences shows the
      "no absence" message, however many delays it has. */
  lemma DelaysAloneShowNoAbsence(m: map<string, Attendance>, key: string, delays: seq<Delay>)
    requires key != "" && key in m && m[key] == Attendance([], delays)
    ensures AttendanceCard(Some(m), Some(key)) == NoAbsence("Tu n'as pas d'absences au " + key + ".")
  {
  }
}
