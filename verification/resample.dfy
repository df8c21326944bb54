/** `resample_followup_data` (src/projects/_followup.py:119-135). Per
    patient, the visits are laid on a daily calendar running from the
    patient's start date (or from the last visit when no start date is
    known) to the last visit; every column is carried forward from the
    latest visit on the calendar that has it; the calendar is then thinned
    to every k-th day. The frequency is modelled as "k days", k >= 1. */
module Resample {
  import opened Nullable
  import opened Records

  /** Why the helper raises instead of returning a group. */
  datatype ResampleError =
    | NoVisitDate(patient: PatientId)           // the group's last date is NaT, which `date_range` rejects
    | DuplicateVisitDates(patient: PatientId)   // `reindex` on a date index with a repeated label

  datatype Result<T> = Success(value: T) | Failure(error: ResampleError)

  // ---------------------------------------------------------------------
  // The groups of `groupby('id_paciente')`
  // ---------------------------------------------------------------------

  predicate HasPatient(t: Table, p: PatientId)
  {
    exists i :: 0 <= i < |t| && t[i].patient == Some(p)
  }

  predicate Increasing(ps: seq<PatientId>)
  {
    forall i, j :: 0 <= i < j < |ps| ==> ps[i] < ps[j]
  }

  function InsertId(p: PatientId, ps: seq<PatientId>): seq<PatientId>
  {
    if ps == [] then [p]
    else if p == ps[0] then ps
    else if p < ps[0] then [p] + ps
    else [ps[0]] + InsertId(p, ps[1..])
  }

  lemma IncreasingCons(x: PatientId, rest: seq<PatientId>)
    requires Increasing(rest)
    requires forall y :: y in rest ==> x < y
    ensures Increasing([x] + rest)
  {
    var r := [x] + rest;
    forall i, j | 0 <= i < j < |r| ensures r[i] < r[j] {
      assert r[j] == rest[j - 1] && rest[j - 1] in rest;
      if i > 0 { assert r[i] == rest[i - 1]; }
    }
  }

  lemma IncreasingTail(ps: seq<PatientId>)
    requires Increasing(ps) && ps != []
    ensures Increasing(ps[1..])
    ensures forall y :: y in ps[1..] ==> ps[0] < y
  {
    forall y | y in ps[1..] ensures ps[0] < y {
      var j :| 0 <= j < |ps[1..]| && ps[1..][j] == y;
      assert ps[j + 1] == y;
    }
  }

  /** Inserting adds exactly the new id. */
  lemma {:induction false} InsertIdMembers(p: PatientId, ps: seq<PatientId>)
    ensures forall x :: x in InsertId(p, ps) <==> x == p || x in ps
  {
    if ps != [] && p != ps[0] && !(p < ps[0]) {
      InsertIdMembers(p, ps[1..]);
      assert ps == [ps[0]] + ps[1..];
    }
  }

  lemma InsertIdFront(p: PatientId, ps: seq<PatientId>)
    requires Increasing(ps) && ps != [] && p < ps[0]
    ensures Increasing([p] + ps)
  {
    IncreasingTail(ps);
    forall y | y in ps ensures p < y {
      if y != ps[0] { assert ps == [ps[0]] + ps[1..]; }
    }
    IncreasingCons(p, ps);
  }

  /** Inserting into an increasing list keeps it increasing. */
  lemma {:induction false} InsertIdSpec(p: PatientId, ps: seq<PatientId>)
    requires Increasing(ps)
    ensures Increasing(InsertId(p, ps))
  {
    if ps == [] || p == ps[0] {
    } else if p < ps[0] {
      InsertIdFront(p, ps);
    } else {
      IncreasingTail(ps);
      InsertIdSpec(p, ps[1..]);
      InsertIdMembers(p, ps[1..]);
      IncreasingCons(ps[0], InsertId(p, ps[1..]));
    }
  }

  /** The patient ids of the groups, in the increasing order in which
      `groupby` visits them; a row without an id belongs to no group. */
  function Patients(t: Table): (r: seq<PatientId>)
    ensures Increasing(r)
    ensures forall p :: p in r <==> HasPatient(t, p)
  {
    if t == [] then []
    else
      var rest := Patients(t[1..]);
      assert forall p :: HasPatient(t, p) <==> t[0].patient == Some(p) || HasPatient(t[1..], p) by {
        forall p ensures HasPatient(t, p) <==> t[0].patient == Some(p) || HasPatient(t[1..], p) {
          if HasPatient(t[1..], p) {
            var i :| 0 <= i < |t[1..]| && t[1..][i].patient == Some(p);
            assert t[i + 1] == t[1..][i];
          }
          if HasPatient(t, p) && t[0].patient != Some(p) {
            var i :| 0 <= i < |t| && t[i].patient == Some(p);
            assert t[1..][i - 1] == t[i];
          }
        }
      }
      if t[0].patient.Some? then
        InsertIdSpec(t[0].patient.value, rest);
        InsertIdMembers(t[0].patient.value, rest);
        InsertId(t[0].patient.value, rest)
      else rest
  }

  /** The rows of patient `p`, in table order. */
  function Group(t: Table, p: PatientId): (r: Table)
    ensures forall o :: o in r ==> o in t && o.patient == Some(p)
    ensures forall i :: 0 <= i < |t| && t[i].patient == Some(p) ==> t[i] in r
    ensures r == [] <==> !HasPatient(t, p)
  {
    if t == [] then []
    else if t[0].patient == Some(p) then
      assert forall i :: 1 <= i < |t| ==> t[i] == t[1..][i - 1];
      [t[0]] + Group(t[1..], p)
    else
      assert forall i :: 1 <= i < |t| ==> t[i] == t[1..][i - 1];
      assert HasPatient(t, p) ==> HasPatient(t[1..], p);
      Group(t[1..], p)
  }

  lemma {:induction false} GroupAppend(a: Table, b: Table, p: PatientId)
    ensures Group(a + b, p) == Group(a, p) + Group(b, p)
  {
    if a == [] {
      assert a + b == b;
    } else {
      assert (a + b)[1..] == a[1..] + b;
      GroupAppend(a[1..], b, p);
    }
  }

  lemma {:induction false} GroupUniform(a: Table, q: PatientId, p: PatientId)
    requires forall o :: o in a ==> o.patient == Some(q)
    ensures Group(a, p) == if p == q then a else []
  {
    if a != [] {
      assert forall o :: o in a[1..] ==> o in a;
      GroupUniform(a[1..], q, p);
      assert a == [a[0]] + a[1..];
    }
  }

  // ---------------------------------------------------------------------
  // The date index of one group
  // ---------------------------------------------------------------------

  /** `group.index.max()`: the latest visit date, NaT (missing) when no row
      of the group is dated. */
  function LastDate(g: Table): (r: Option<Date>)
    ensures r.None? <==> forall i :: 0 <= i < |g| ==> g[i].date.None?
    ensures r.Some? ==> exists i :: 0 <= i < |g| && g[i].date == r
    ensures r.Some? ==> forall i :: 0 <= i < |g| && g[i].date.Some? ==> g[i].date.value <= r.value
  {
    if g == [] then None
    else
      var rest := LastDate(g[1..]);
      assert forall i :: 1 <= i < |g| ==> g[i] == g[1..][i - 1];
      if rest.Some? then
        var i :| 0 <= i < |g[1..]| && g[1..][i].date == rest;
        assert g[i + 1].date == rest;
        match g[0].date
        case None => rest
        case Some(d) => Some(if d < rest.value then rest.value else d)
      else
        g[0].date
  }

  /** The date index has no repeated label; two NaT labels repeat. */
  predicate DistinctDates(g: Table)
  {
    forall i, j :: 0 <= i < j < |g| ==> g[i].date != g[j].date
  }

  /** A group the helper turns into rows rather than an exception. */
  predicate ValidGroup(g: Table)
  {
    LastDate(g).Some? && DistinctDates(g)
  }

  /** `begin`: the patient's start date when one is recorded and not NaT,
      else the last visit. */
  function BeginDate(start: map<PatientId, Option<Date>>, p: PatientId, end: Date): (r: Date)
    ensures r == end || (p in start && start[p] == Some(r))
  {
    if p in start && start[p].Some? then start[p].value else end
  }

  // ---------------------------------------------------------------------
  // `reindex(date_range(begin, end, freq='D')).ffill()`
  // ---------------------------------------------------------------------

  /** The cells of the visit dated `d`; none when there is no such visit. */
  function VisitCells(g: Table, d: Date): (r: Cells)
    ensures (forall i :: 0 <= i < |g| ==> g[i].date != Some(d)) ==> r == map[]
    ensures DistinctDates(g) ==> forall i :: 0 <= i < |g| && g[i].date == Some(d) ==> r == g[i].cells
  {
    if g == [] then map[]
    else
      assert forall i :: 1 <= i < |g| ==> g[i] == g[1..][i - 1];
      if g[0].date == Some(d) then g[0].cells else VisitCells(g[1..], d)
  }

  /** The calendar row of day `d`: the previous day's row overwritten by
      the columns the visit of day `d` has, if any. Before `begin` the
      calendar is empty. */
  function DayCells(g: Table, begin: Date, d: Date): Cells
    decreases d - begin
  {
    if d < begin then map[] else DayCells(g, begin, d - 1) + VisitCells(g, d)
  }

  /** Visit `i` is the latest visit dated in [begin, d] that has column `c`. */
  predicate LatestWith(g: Table, begin: Date, d: Date, c: Column, i: int)
  {
    && 0 <= i < |g|
    && g[i].date.Some? && begin <= g[i].date.value <= d
    && c in g[i].cells
    && forall j :: 0 <= j < |g| && g[j].date.Some? && g[i].date.value < g[j].date.value <= d ==> c !in g[j].cells
  }

  /** A day whose visit lacks `c` has the same latest visit for `c` as
      the day before. */
  lemma LatestWithStep(g: Table, begin: Date, d: Date, c: Column, i: int)
    requires DistinctDates(g) && begin <= d
    requires c !in VisitCells(g, d)
    ensures LatestWith(g, begin, d, c, i) <==> LatestWith(g, begin, d - 1, c, i)
  {
    if LatestWith(g, begin, d - 1, c, i) {
      forall j | 0 <= j < |g| && g[j].date.Some? && g[i].date.value < g[j].date.value <= d
        ensures c !in g[j].cells
      {
        if g[j].date == Some(d) {
          assert VisitCells(g, d) == g[j].cells;
        }
      }
    }
  }

  /** Each column of the calendar row of day `d` holds the value of the
      latest visit in [begin, d] that has the column, and is missing when
      there is none. */
  lemma {:induction false} DayCellsSpec(g: Table, begin: Date, d: Date, c: Column)
    requires DistinctDates(g)
    ensures c in DayCells(g, begin, d) <==> exists i :: LatestWith(g, begin, d, c, i)
    ensures forall i :: LatestWith(g, begin, d, c, i) ==>
              c in DayCells(g, begin, d) && DayCells(g, begin, d)[c] == g[i].cells[c]
    decreases d - begin
  {
    if d >= begin {
      DayCellsSpec(g, begin, d - 1, c);
      var v := VisitCells(g, d);
      assert DayCells(g, begin, d) == DayCells(g, begin, d - 1) + v;
      if c in v {
        var i :| 0 <= i < |g| && g[i].date == Some(d) && v == g[i].cells;
        assert LatestWith(g, begin, d, c, i);
        forall i' | LatestWith(g, begin, d, c, i')
          ensures i' == i
        {
          assert g[i'].date == Some(d);
        }
      } else {
        forall i ensures LatestWith(g, begin, d, c, i) <==> LatestWith(g, begin, d - 1, c, i) {
          LatestWithStep(g, begin, d, c, i);
        }
        if c in DayCells(g, begin, d) {
          var i :| LatestWith(g, begin, d - 1, c, i);
          assert LatestWith(g, begin, d, c, i);
        }
        if exists i :: LatestWith(g, begin, d, c, i) {
          var i :| LatestWith(g, begin, d, c, i);
          assert LatestWith(g, begin, d - 1, c, i);
        }
      }
    }
  }

  // ---------------------------------------------------------------------
  // `asfreq('kD')` on the daily calendar
  // ---------------------------------------------------------------------

  /** The number of calendar days kept: begin, begin + k, ..., up to end;
      none when `begin` is after `end` (`date_range` is then empty). */
  function GridSize(begin: Date, end: Date, k: int): nat
    requires k >= 1
  {
    if begin <= end then (end - begin) / k + 1 else 0
  }

  /** The rows one patient's group becomes, dated `begin + j * k`. */
  function ResamplePatient(g: Table, p: PatientId, begin: Date, end: Date, k: int): (r: Table)
    requires k >= 1
    ensures |r| == GridSize(begin, end, k)
    ensures forall j :: 0 <= j < |r| ==> r[j].patient == Some(p) && r[j].date == Some(begin + j * k)
  {
    seq(GridSize(begin, end, k), j requires 0 <= j < GridSize(begin, end, k) =>
      Row(Some(p), Some(begin + j * k), DayCells(g, begin, begin + j * k)))
  }

  /** Day `d` is one of the days `asfreq` keeps. */
  predicate OnCalendar(begin: Date, end: Date, k: int, d: Date)
    requires k >= 1
  {
    begin <= d <= end && (d - begin) % k == 0
  }

  predicate DatedOn(t: Table, d: Date)
  {
    exists j :: 0 <= j < |t| && t[j].date == Some(d)
  }

  lemma MulMono(a: int, b: int, k: int)
    requires a <= b && k >= 0
    ensures a * k <= b * k
  {
    assert (b - a) * k >= 0;
    assert b * k - a * k == (b - a) * k;
  }

  lemma DivModUnique(x: int, k: int, q: int, r: int)
    requires k >= 1 && 0 <= r < k && x == q * k + r
    ensures x / k == q && x % k == r
  {
    var e := q - x / k;
    assert x == (x / k) * k + x % k;
    assert e * k == x % k - r;
    if e >= 1 { MulMono(1, e, k); }
    if e <= -1 { MulMono(e, -1, k); }
  }

  lemma DivMono(a: int, b: int, k: int)
    requires k >= 1 && a <= b
    ensures a / k <= b / k
  {
    assert a == (a / k) * k + a % k;
    assert b == (b / k) * k + b % k;
    if a / k > b / k { MulMono(b / k + 1, a / k, k); }
  }

  lemma GridStepInRange(begin: Date, end: Date, k: int, j: int)
    requires k >= 1 && begin <= end
    requires 0 <= j <= (end - begin) / k
    ensures begin <= begin + j * k <= end
    ensures (begin + j * k - begin) % k == 0
  {
    var q := (end - begin) / k;
    MulMono(0, j, k);
    MulMono(j, q, k);
    assert end - begin == q * k + (end - begin) % k;
    DivModUnique(j * k, k, j, 0);
  }

  lemma GridIndexOf(begin: Date, end: Date, k: int, d: Date)
    requires k >= 1
    requires OnCalendar(begin, end, k, d)
    ensures 0 <= (d - begin) / k <= (end - begin) / k
    ensures begin + (d - begin) / k * k == d
  {
    DivMono(0, d - begin, k);
    DivMono(d - begin, end - begin, k);
    assert d - begin == (d - begin) / k * k + (d - begin) % k;
  }

  /** The resampled group is one patient's rows at days begin, begin + k,
      ..., each day of that calendar exactly once and in increasing order;
      with a daily step it has one row per day from `begin` to `end`. */
  lemma ResamplePatientCalendar(g: Table, p: PatientId, begin: Date, end: Date, k: int)
    requires k >= 1
    ensures forall o :: o in ResamplePatient(g, p, begin, end, k) ==> o.patient == Some(p) && o.date.Some?
    ensures forall d :: DatedOn(ResamplePatient(g, p, begin, end, k), d) <==> OnCalendar(begin, end, k, d)
    ensures StrictlySortedByKey(ResamplePatient(g, p, begin, end, k))
    ensures k == 1 ==> |ResamplePatient(g, p, begin, end, k)| == if begin <= end then end - begin + 1 else 0
  {
    forall d ensures DatedOn(ResamplePatient(g, p, begin, end, k), d) <==> OnCalendar(begin, end, k, d) {
      ResamplePatientDay(g, p, begin, end, k, d);
    }
    ResamplePatientSorted(g, p, begin, end, k);
  }

  lemma ResamplePatientDay(g: Table, p: PatientId, begin: Date, end: Date, k: int, d: Date)
    requires k >= 1
    ensures DatedOn(ResamplePatient(g, p, begin, end, k), d) <==> OnCalendar(begin, end, k, d)
  {
    var r := ResamplePatient(g, p, begin, end, k);
    if DatedOn(r, d) {
      var j :| 0 <= j < |r| && r[j].date == Some(d);
      GridStepInRange(begin, end, k, j);
    }
    if OnCalendar(begin, end, k, d) {
      GridIndexOf(begin, end, k, d);
      var j := (d - begin) / k;
      assert r[j].date == Some(d);
    }
  }

  lemma ResamplePatientSorted(g: Table, p: PatientId, begin: Date, end: Date, k: int)
    requires k >= 1
    ensures StrictlySortedByKey(ResamplePatient(g, p, begin, end, k))
  {
    var r := ResamplePatient(g, p, begin, end, k);
    forall i, j | 0 <= i < j < |r|
      ensures KeyBefore(KeyOf(r[i]), KeyOf(r[j]))
    {
      GridDayBefore(begin, k, i, j);
      assert KeyOf(r[i]) == Key(Some(p), Some(begin + i * k));
      assert KeyOf(r[j]) == Key(Some(p), Some(begin + j * k));
    }
  }

  lemma GridDayBefore(begin: Date, k: int, i: int, j: int)
    requires k >= 1 && i < j
    ensures begin + i * k < begin + j * k
  {
    MulMono(i + 1, j, k);
    assert (i + 1) * k == i * k + k;
  }

  /** Each column of a resampled row holds the value of the latest visit
      from `begin` up to the row's day that has the column, and is missing
      when there is none: visits before `begin` are not carried in. */
  lemma ResamplePatientCells(g: Table, p: PatientId, begin: Date, end: Date, k: int, j: int, c: Column)
    requires k >= 1 && DistinctDates(g)
    requires 0 <= j < GridSize(begin, end, k)
    ensures var o := ResamplePatient(g, p, begin, end, k)[j];
      && (c in o.cells <==> exists i :: LatestWith(g, begin, o.date.value, c, i))
      && forall i :: LatestWith(g, begin, o.date.value, c, i) ==> c in o.cells && o.cells[c] == g[i].cells[c]
  {
    DayCellsSpec(g, begin, begin + j * k, c);
  }

  /** No visit on the kept calendar is lost: the row of its day carries
      every column the visit has, with the visit's value. */
  lemma VisitKept(g: Table, p: PatientId, begin: Date, end: Date, k: int, i: int)
    requires k >= 1 && DistinctDates(g)
    requires 0 <= i < |g| && g[i].date.Some?
    requires OnCalendar(begin, end, k, g[i].date.value)
    ensures exists o :: o in ResamplePatient(g, p, begin, end, k) && o.date == g[i].date
              && forall c :: c in g[i].cells ==> c in o.cells && o.cells[c] == g[i].cells[c]
  {
    var d := g[i].date.value;
    GridIndexOf(begin, end, k, d);
    var r := ResamplePatient(g, p, begin, end, k);
    var j := (d - begin) / k;
    assert r[j].cells == DayCells(g, begin, d - 1) + VisitCells(g, d);
    assert VisitCells(g, d) == g[i].cells;
    assert r[j] in r;
  }

  // ---------------------------------------------------------------------
  // `df.set_index('fecha_visita').groupby('id_paciente').apply(...)`
  // ---------------------------------------------------------------------

  /** The rows patient `p` contributes when its group is valid. */
  function PatientRows(t: Table, start: map<PatientId, Option<Date>>, k: int, p: PatientId): (r: Table)
    requires k >= 1 && ValidGroup(Group(t, p))
    ensures forall j :: 0 <= j < |r| ==> r[j].patient == Some(p) && r[j].date.Some?
  {
    var g := Group(t, p);
    var end := LastDate(g).value;
    ResamplePatient(g, p, BeginDate(start, p, end), end, k)
  }

  /** The calendar of one patient: a single row at the last visit when no
      start date is known; no rows when the start date is after the last
      visit; otherwise, with a daily step, one row per day from the start
      date to the last visit. */
  lemma PatientRowsCalendar(t: Table, start: map<PatientId, Option<Date>>, k: int, p: PatientId)
    requires k >= 1 && ValidGroup(Group(t, p))
    ensures !(p in start && start[p].Some?) ==>
              |PatientRows(t, start, k, p)| == 1 && PatientRows(t, start, k, p)[0].date == LastDate(Group(t, p))
    ensures p in start && start[p].Some? && start[p].value > LastDate(Group(t, p)).value ==>
              PatientRows(t, start, k, p) == []
    ensures p in start && start[p].Some? && start[p].value <= LastDate(Group(t, p)).value && k == 1 ==>
              |PatientRows(t, start, k, p)| == LastDate(Group(t, p)).value - start[p].value + 1
  {
    var g := Group(t, p);
    var end := LastDate(g).value;
    ResamplePatientCalendar(g, p, BeginDate(start, p, end), end, k);
    if !(p in start && start[p].Some?) {
      assert BeginDate(start, p, end) == end;
      assert (end - end) / k == 0;
    }
  }

  /** When the last visit falls on the kept calendar (always so with a
      daily step), the last row is dated at it and keeps every value the
      last visit has. */
  lemma LastVisitKept(g: Table, p: PatientId, begin: Date, k: int)
    requires k >= 1 && ValidGroup(g)
    requires OnCalendar(begin, LastDate(g).value, k, LastDate(g).value)
    ensures var r := ResamplePatient(g, p, begin, LastDate(g).value, k);
      && |r| > 0 && r[|r| - 1].date == LastDate(g)
      && forall i, c :: 0 <= i < |g| && g[i].date == LastDate(g) && c in g[i].cells ==>
           c in r[|r| - 1].cells && r[|r| - 1].cells[c] == g[i].cells[c]
  {
    var end := LastDate(g).value;
    var r := ResamplePatient(g, p, begin, end, k);
    GridIndexOf(begin, end, k, end);
    var j := (end - begin) / k;
    assert j == |r| - 1;
    assert r[j].cells == DayCells(g, begin, end - 1) + VisitCells(g, end);
  }

  /** The groups of `ps` resampled in turn; the first invalid group's
      error stops the whole operation. */
  function ResampleGroups(t: Table, start: map<PatientId, Option<Date>>, k: int, ps: seq<PatientId>): (r: Result<Table>)
    requires k >= 1 && Increasing(ps)
    ensures r.Success? <==> forall p :: p in ps ==> ValidGroup(Group(t, p))
    ensures r.Failure? ==> r.error.patient in ps && !ValidGroup(Group(t, r.error.patient))
    ensures r.Failure? ==> (r.error.NoVisitDate? <==> LastDate(Group(t, r.error.patient)).None?)
    ensures r.Failure? ==> forall q :: q in ps && q < r.error.patient ==> ValidGroup(Group(t, q))
  {
    if ps == [] then Success([])
    else
      var p := ps[0];
      var g := Group(t, p);
      IncreasingTail(ps);
      HeadOrTail(ps);
      HeadIsLeast(ps);
      assert p in ps;
      if LastDate(g).None? then Failure(NoVisitDate(p))
      else if !DistinctDates(g) then Failure(DuplicateVisitDates(p))
      else
        var tail := ResampleGroups(t, start, k, ps[1..]);
        if tail.Failure? then tail
        else Success(PatientRows(t, start, k, p) + tail.value)
  }

  lemma HeadIsLeast(ps: seq<PatientId>)
    requires Increasing(ps) && ps != []
    ensures forall q :: q in ps ==> ps[0] <= q
  {
  }

  lemma HeadOrTail(ps: seq<PatientId>)
    requires ps != []
    ensures forall q :: q in ps <==> q == ps[0] || q in ps[1..]
  {
    assert ps == [ps[0]] + ps[1..];
  }

  /** One patient's rows followed by rows of later patients: the order
      stays strict and each patient keeps exactly its own rows. */
  lemma PrependPatient(head: Table, rest: Table, p0: PatientId, later: seq<PatientId>)
    requires forall o :: o in head ==> o.patient == Some(p0)
    requires StrictlySortedByKey(head) && StrictlySortedByKey(rest)
    requires forall o :: o in rest ==> o.patient.Some? && o.patient.value in later
    requires forall q :: q in later ==> p0 < q
    ensures StrictlySortedByKey(head + rest)
    ensures Group(head + rest, p0) == head
    ensures forall p :: p in later ==> Group(head + rest, p) == Group(rest, p)
  {
    forall x, y | x in head && y in rest
      ensures KeyBefore(KeyOf(x), KeyOf(y))
    {
      assert y.patient.value in later;
    }
    StrictConcat(head, rest);
    GroupAppend(head, rest, p0);
    GroupUniform(head, p0, p0);
    assert !HasPatient(rest, p0);
    forall p | p in later
      ensures Group(head + rest, p) == Group(rest, p)
    {
      GroupAppend(head, rest, p);
      GroupUniform(head, p0, p);
    }
  }

  lemma ResampleGroupsStep(t: Table, start: map<PatientId, Option<Date>>, k: int, ps: seq<PatientId>)
    requires k >= 1 && Increasing(ps) && ps != []
    requires ResampleGroups(t, start, k, ps).Success?
    ensures ValidGroup(Group(t, ps[0]))
    ensures ResampleGroups(t, start, k, ps[1..]).Success?
    ensures ResampleGroups(t, start, k, ps).value
            == PatientRows(t, start, k, ps[0]) + ResampleGroups(t, start, k, ps[1..]).value
  {
  }

  /** On success the groups of `ps` come out one after another: every row
      belongs to one of them, the rows are in strictly increasing
      (patient, date) order, and patient `p`'s rows are its resampled
      group. */
  lemma {:induction false} ResampleGroupsRows(t: Table, start: map<PatientId, Option<Date>>, k: int, ps: seq<PatientId>)
    requires k >= 1 && Increasing(ps)
    requires ResampleGroups(t, start, k, ps).Success?
    ensures forall o :: o in ResampleGroups(t, start, k, ps).value ==> o.patient.Some? && o.patient.value in ps
    ensures StrictlySortedByKey(ResampleGroups(t, start, k, ps).value)
    ensures forall p :: p in ps ==> Group(ResampleGroups(t, start, k, ps).value, p) == PatientRows(t, start, k, p)
  {
    if ps != [] {
      var p0 := ps[0];
      var later := ps[1..];
      assert forall q :: q in later ==> p0 < q;
      assert forall q :: q in ps ==> q == p0 || q in later;
      ResampleGroupsRows(t, start, k, later);
      var head := PatientRows(t, start, k, p0);
      var rest := ResampleGroups(t, start, k, later).value;
      ResampleGroupsStep(t, start, k, ps);
      var g := Group(t, p0);
      var end := LastDate(g).value;
      ResamplePatientCalendar(g, p0, BeginDate(start, p0, end), end, k);
      PrependPatient(head, rest, p0, later);
      forall o: Row | o in head + rest
        ensures o.patient.Some? && o.patient.value in ps
      {
        if o in rest { assert o.patient.value in later; }
      }
      forall p | p in ps
        ensures Group(head + rest, p) == PatientRows(t, start, k, p)
      {
        if p != p0 { assert p in later; }
      }
    }
  }

  /** `resample_followup_data(df, start, 'kD')`: either every group is
      valid and the result is the groups resampled in patient order, or
      the error of the first invalid group. */
  function Resample(t: Table, start: map<PatientId, Option<Date>>, k: int): (r: Result<Table>)
    requires k >= 1
    ensures r.Success? <==> forall p :: HasPatient(t, p) ==> ValidGroup(Group(t, p))
    ensures r.Failure? ==> HasPatient(t, r.error.patient) && !ValidGroup(Group(t, r.error.patient))
    ensures r.Failure? ==> forall q :: HasPatient(t, q) && q < r.error.patient ==> ValidGroup(Group(t, q))
  {
    ResampleGroups(t, start, k, Patients(t))
  }

  lemma ResampleRows(t: Table, start: map<PatientId, Option<Date>>, k: int)
    requires k >= 1
    requires Resample(t, start, k).Success?
    ensures forall o :: o in Resample(t, start, k).value ==> o.patient.Some? && HasPatient(t, o.patient.value)
    ensures StrictlySortedByKey(Resample(t, start, k).value)
    ensures forall p :: HasPatient(t, p) ==> Group(Resample(t, start, k).value, p) == PatientRows(t, start, k, p)
  {
    ResampleGroupsRows(t, start, k, Patients(t));
  }
}
