/** The older copy of the pipeline in the `precision_als` project
    (bin/projects/precision_als.py): the diagnosed cases, the follow-up
    table with the two stages added, the earliest date at which each
    patient reached each stage, and the label maps of the export. */
module PrecisionAls {
  import opened Nullable
  import opened Records
  import opened Merge
  import opened Staging

  // ---------------------------------------------------------------------
  // Cases (line 61)
  // ---------------------------------------------------------------------

  /** A patient record with a diagnosis date. */
  predicate Diagnosed(row: Row)
  {
    "fecha_dx" in row.cells
  }

  /** `patients[patients.fecha_dx.notna()]`: the diagnosed patients, in
      table order, each as often as it occurs. */
  function Cases(patients: Table): (r: Table)
    ensures forall o :: o in r ==> Diagnosed(o)
    ensures forall o :: multiset(r)[o] == if Diagnosed(o) then multiset(patients)[o] else 0
  {
    if patients == [] then []
    else
      var rest := Cases(patients[1..]);
      assert patients == [patients[0]] + patients[1..];
      if Diagnosed(patients[0]) then [patients[0]] + rest else rest
  }

  /** Filtering keeps table order: the cases of two tables in a row are
      the cases of each in turn. */
  lemma {:induction false} CasesAppend(a: Table, b: Table)
    ensures Cases(a + b) == Cases(a) + Cases(b)
  {
    if a == [] {
      assert a + b == b;
    } else {
      assert (a + b)[1..] == a[1..] + b;
      CasesAppend(a[1..], b);
    }
  }

  // ---------------------------------------------------------------------
  // The follow-up table (lines 73-79)
  // ---------------------------------------------------------------------

  /** A row with `kings_c` and `mitos_c` assigned. */
  function WithStages(row: Row): (r: Row)
    ensures KeyOf(r) == KeyOf(row)
    ensures Cell(r, "kings_c") == Lift(KingsStage(row))
    ensures Cell(r, "mitos_c") == Lift(MitosStage(row))
    ensures forall c :: c != "kings_c" && c != "mitos_c" ==> Cell(r, c) == Cell(row, c)
  {
    var ks := Lift(KingsStage(row));
    var ms := Lift(MitosStage(row));
    var u := map["kings_c" := ks, "mitos_c" := ms];
    var cells := Assign(row.cells, u);
    assert "kings_c" in u && u["kings_c"] == ks;
    assert "mitos_c" in u && u["mitos_c"] == ms;
    forall c | c != "kings_c" && c != "mitos_c"
      ensures (c in cells <==> c in row.cells) && (c in cells ==> cells[c] == row.cells[c])
    {
      assert c !in u;
    }
    Row(row.patient, row.date, cells)
  }

  /** The stages added to every row. */
  function WithStagesAll(t: Table): (r: Table)
    ensures |r| == |t|
    ensures forall i :: 0 <= i < |t| ==> r[i] == WithStages(t[i])
  {
    seq(|t|, i requires 0 <= i < |t| => WithStages(t[i]))
  }

  /** `_followups`: the two-step outer merge with the stages added. The
      forward fill of line 75 works on a copy and leaves the table alone,
      and nothing drops or deduplicates rows. */
  function PrecisionFollowups(als: Table, nutr: Table, resp: Table): (r: Table)
    ensures SortedByKey(r)
    ensures forall k :: HasKey(r, k) <==> HasKey(als, k) || HasKey(nutr, k) || HasKey(resp, k)
  {
    var m := Merge3(als, nutr, resp);
    SameKeysPointwise(m, WithStagesAll(m));
    WithStagesAll(m)
  }

  /** Adding the stages keeps the table row for row: same length, same
      keys, every column other than the two stages untouched. */
  lemma WithStagesAllSpec(t: Table)
    ensures |WithStagesAll(t)| == |t|
    ensures forall i :: 0 <= i < |t| ==> KeyOf(WithStagesAll(t)[i]) == KeyOf(t[i])
    ensures forall i, c :: 0 <= i < |t| && c != "kings_c" && c != "mitos_c" ==>
              Cell(WithStagesAll(t)[i], c) == Cell(t[i], c)
    ensures forall k :: HasKey(WithStagesAll(t), k) <==> HasKey(t, k)
  {
    var r := WithStagesAll(t);
    forall i | 0 <= i < |t|
      ensures KeyOf(r[i]) == KeyOf(t[i])
      ensures forall c :: c != "kings_c" && c != "mitos_c" ==> Cell(r[i], c) == Cell(t[i], c)
    {
      assert r[i] == WithStages(t[i]);
    }
    SameKeysPointwise(t, r);
  }

  /** The follow-up table is the merged table row for row, incomplete keys
      included, with no carry-forward column filled; its keys are those of
      the three sources. */
  lemma PrecisionFollowupsSpec(als: Table, nutr: Table, resp: Table)
    ensures |PrecisionFollowups(als, nutr, resp)| == |Merge3(als, nutr, resp)|
    ensures forall i :: 0 <= i < |Merge3(als, nutr, resp)| ==>
              KeyOf(PrecisionFollowups(als, nutr, resp)[i]) == KeyOf(Merge3(als, nutr, resp)[i])
    ensures forall i, c :: 0 <= i < |Merge3(als, nutr, resp)| && c != "kings_c" && c != "mitos_c" ==>
              Cell(PrecisionFollowups(als, nutr, resp)[i], c) == Cell(Merge3(als, nutr, resp)[i], c)
    ensures forall k :: HasKey(PrecisionFollowups(als, nutr, resp), k) <==>
              HasKey(als, k) || HasKey(nutr, k) || HasKey(resp, k)
  {
    WithStagesAllSpec(Merge3(als, nutr, resp));
  }

  /** The stages of a follow-up row are those of its merged row, so each
      is missing or in 0..4. */
  lemma PrecisionStages(als: Table, nutr: Table, resp: Table, i: int)
    requires 0 <= i < |PrecisionFollowups(als, nutr, resp)|
    ensures IntCell(PrecisionFollowups(als, nutr, resp)[i], "kings_c") == KingsStage(Merge3(als, nutr, resp)[i])
    ensures IntCell(PrecisionFollowups(als, nutr, resp)[i], "mitos_c") == MitosStage(Merge3(als, nutr, resp)[i])
  {
    var m := Merge3(als, nutr, resp);
    var o := PrecisionFollowups(als, nutr, resp)[i];
    assert o == WithStages(m[i]);
    assert Cell(o, "kings_c") == Lift(KingsStage(m[i]));
    assert Cell(o, "mitos_c") == Lift(MitosStage(m[i]));
  }

  // ---------------------------------------------------------------------
  // Earliest stage dates (lines 156-166)
  // ---------------------------------------------------------------------

  /** Row `i` belongs to patient `p` and has stage column `stage` equal to `n`. */
  predicate AtStage(t: Table, stage: Column, n: int, i: int, p: PatientId)
  {
    0 <= i < |t| && t[i].patient == Some(p) && IntCell(t[i], stage) == Some(n)
  }

  /** The earlier of two dates, a missing date giving way to a present one
      as `min` skips NaT. */
  function Earlier(a: Option<Date>, b: Option<Date>): (r: Option<Date>)
    ensures r.None? <==> a.None? && b.None?
    ensures r.Some? ==> r == a || r == b
    ensures r.Some? && a.Some? ==> r.value <= a.value
    ensures r.Some? && b.Some? ==> r.value <= b.value
  {
    match (a, b)
    case (None, _) => b
    case (_, None) => a
    case (Some(x), Some(y)) => if x <= y then a else b
  }

  /** `t[t[stage] == n].groupby('id_paciente').fecha_visita.min()`: the
      patients that have a row at stage `n`, each with the earliest date
      of those rows, or NaT when none of them is dated. */
  function EarliestStageDates(t: Table, stage: Column, n: int): (r: map<PatientId, Option<Date>>)
    ensures forall p :: p in r ==> exists i :: AtStage(t, stage, n, i, p)
  {
    if t == [] then map[]
    else
      var rest := EarliestStageDates(t[1..], stage, n);
      assert forall p :: p in rest ==> exists i :: AtStage(t, stage, n, i, p) by {
        forall p | p in rest ensures exists i :: AtStage(t, stage, n, i, p) {
          var i :| AtStage(t[1..], stage, n, i, p);
          assert AtStage(t, stage, n, i + 1, p);
        }
      }
      var row := t[0];
      if row.patient.Some? && IntCell(row, stage) == Some(n) then
        var p := row.patient.value;
        assert AtStage(t, stage, n, 0, p);
        if p in rest then rest[p := Earlier(row.date, rest[p])] else rest[p := row.date]
      else
        rest
  }

  /** A patient has an entry exactly when one of its rows is at stage `n`;
      the entry is the earliest date among those rows, and NaT only when
      none of them is dated. */
  lemma {:induction false} EarliestStageDatesSpec(t: Table, stage: Column, n: int, p: PatientId)
    ensures p in EarliestStageDates(t, stage, n) <==> exists i :: AtStage(t, stage, n, i, p)
    ensures p in EarliestStageDates(t, stage, n) ==>
              (EarliestStageDates(t, stage, n)[p].None? <==> forall i :: AtStage(t, stage, n, i, p) ==> t[i].date.None?)
    ensures p in EarliestStageDates(t, stage, n) && EarliestStageDates(t, stage, n)[p].Some? ==>
              exists i :: AtStage(t, stage, n, i, p) && t[i].date == EarliestStageDates(t, stage, n)[p]
    ensures forall i :: AtStage(t, stage, n, i, p) && t[i].date.Some? ==>
              p in EarliestStageDates(t, stage, n) && EarliestStageDates(t, stage, n)[p].Some?
              && EarliestStageDates(t, stage, n)[p].value <= t[i].date.value
  {
    if t != [] {
      var tl := t[1..];
      EarliestStageDatesSpec(tl, stage, n, p);
      var r := EarliestStageDates(t, stage, n);
      var rest := EarliestStageDates(tl, stage, n);
      var here := t[0].patient == Some(p) && IntCell(t[0], stage) == Some(n);
      assert here <==> AtStage(t, stage, n, 0, p);
      forall i | 1 <= i < |t|
        ensures AtStage(t, stage, n, i, p) <==> AtStage(tl, stage, n, i - 1, p)
      {
        assert t[i] == tl[i - 1];
      }
      forall i | 0 <= i < |tl|
        ensures AtStage(tl, stage, n, i, p) <==> AtStage(t, stage, n, i + 1, p)
      {
        assert t[i + 1] == tl[i];
      }
      if here {
        assert p in r;
        if p in rest {
          assert r[p] == Earlier(t[0].date, rest[p]);
          if r[p].Some? && r[p] != t[0].date {
            var i :| AtStage(tl, stage, n, i, p) && tl[i].date == rest[p];
            assert AtStage(t, stage, n, i + 1, p);
          }
        } else {
          assert r[p] == t[0].date;
          assert forall i :: !AtStage(tl, stage, n, i, p);
        }
      } else {
        assert p in r <==> p in rest;
        assert p in r ==> r[p] == rest[p];
        if p in rest && rest[p].Some? {
          var i :| AtStage(tl, stage, n, i, p) && tl[i].date == rest[p];
          assert AtStage(t, stage, n, i + 1, p);
        }
        if p in rest {
          var i :| AtStage(tl, stage, n, i, p);
          assert AtStage(t, stage, n, i + 1, p);
        }
      }
    }
  }

  // ---------------------------------------------------------------------
  // Label maps (lines 15-18, 146, 148-149)
  // ---------------------------------------------------------------------

  const SexLabels: map<string, string> := map["Hombre" := "Male", "Mujer" := "Female"]
  const GeneStatusLabels: map<string, string> := map["Normal" := "Normal", "Alterado" := "Altered"]

  /** `series.map(labels)`: a listed value becomes its label, anything
      else (including a missing value) becomes missing. */
  function Relabel(labels: map<string, string>, s: Option<string>): (r: Option<string>)
    ensures r.Some? <==> s.Some? && s.value in labels
    ensures r.Some? ==> r.value in labels.Values
  {
    if s.Some? && s.value in labels then Some(labels[s.value]) else None
  }

  predicate Injective(labels: map<string, string>)
  {
    forall a, b :: a in labels && b in labels && a != b ==> labels[a] != labels[b]
  }

  /** Reads a label back to the value it came from. */
  function Unlabel(labels: map<string, string>, l: Option<string>): (r: Option<string>)
    requires Injective(labels)
    ensures r.Some? ==> r.value in labels && l == Some(labels[r.value])
  {
    if l.Some? && exists a :: a in labels && labels[a] == l.value then
      var a :| a in labels && labels[a] == l.value;
      Some(a)
    else None
  }

  /** Labelling loses nothing on the listed values: it is undone by reading
      the label back. */
  lemma RelabelRoundTrip(labels: map<string, string>, s: Option<string>)
    requires Injective(labels)
    requires s.Some? && s.value in labels
    ensures Unlabel(labels, Relabel(labels, s)) == s
  {
    var l := Relabel(labels, s);
    assert labels[s.value] == l.value;
  }

  /** Hombre is Male, Mujer is Female, anything else is missing; Normal
      is Normal, Alterado is Altered, anything else is missing; and both
      maps are one-to-one. */
  lemma ExportLabels(s: Option<string>)
    ensures Relabel(SexLabels, s) == Some("Male") <==> s == Some("Hombre")
    ensures Relabel(SexLabels, s) == Some("Female") <==> s == Some("Mujer")
    ensures Relabel(SexLabels, s).None? <==> s != Some("Hombre") && s != Some("Mujer")
    ensures Relabel(GeneStatusLabels, s) == Some("Normal") <==> s == Some("Normal")
    ensures Relabel(GeneStatusLabels, s) == Some("Altered") <==> s == Some("Alterado")
    ensures Relabel(GeneStatusLabels, s).None? <==> s != Some("Normal") && s != Some("Alterado")
    ensures Injective(SexLabels) && Injective(GeneStatusLabels)
  {
    assert "Male" != "Female";
    assert "Normal" != "Altered";
    assert SexLabels.Keys == {"Hombre", "Mujer"};
    assert GeneStatusLabels.Keys == {"Normal", "Alterado"};
  }

  /** Only stages 0..4 occur, so the export's ten date columns cover every
      patient that reached a stage: for any other n no patient has a date. */
  lemma NoDatesOutsideStages(als: Table, nutr: Table, resp: Table, n: int)
    requires n < 0 || n > 4
    ensures EarliestStageDates(PrecisionFollowups(als, nutr, resp), "kings_c", n) == map[]
    ensures EarliestStageDates(PrecisionFollowups(als, nutr, resp), "mitos_c", n) == map[]
  {
    var t := PrecisionFollowups(als, nutr, resp);
    forall i | 0 <= i < |t|
      ensures IntCell(t[i], "kings_c") != Some(n) && IntCell(t[i], "mitos_c") != Some(n)
    {
      PrecisionStages(als, nutr, resp, i);
    }
    forall p
      ensures p !in EarliestStageDates(t, "kings_c", n) && p !in EarliestStageDates(t, "mitos_c", n)
    {
      EarliestStageDatesSpec(t, "kings_c", n, p);
      EarliestStageDatesSpec(t, "mitos_c", n, p);
    }
  }
}
