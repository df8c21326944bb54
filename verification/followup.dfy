/** `load_followup_data` (src/projects/followup.py:114-141, repeated in
    src/projects/_followup.py:98-116): merge the three sources, forward fill
    the carry-forward columns per patient, drop rows with a missing
    identifier, back fill and deduplicate per key, then add the derived
    columns. The two copies of the pipeline compute the same table. */
module Followup {
  import opened Records
  import opened Merge
  import opened Fill
  import opened Staging

  /** `_add_calculated_fields` applied to every row. */
  function AddCalculatedFieldsAll(t: Table): (r: Table)
    ensures |r| == |t|
    ensures forall i :: 0 <= i < |t| ==> KeyOf(r[i]) == KeyOf(t[i])
    ensures forall i :: 0 <= i < |t| ==> r[i] == AddCalculatedFields(t[i])
  {
    seq(|t|, i requires 0 <= i < |t| => AddCalculatedFields(t[i]))
  }

  /** The merged table after the grouped forward fill (lines 119-121). */
  function Filled(als: Table, nutr: Table, resp: Table): Table
  {
    ForwardFill(Merge3(als, nutr, resp), FfillColumns)
  }

  function LoadFollowupData(als: Table, nutr: Table, resp: Table): (r: Table)
    ensures forall i, j :: 0 <= i < j < |r| ==> KeyOf(r[i]) != KeyOf(r[j])
  {
    AddCalculatedFieldsAll(Consolidate(Filled(als, nutr, resp)))
  }

  lemma FilledKeys(als: Table, nutr: Table, resp: Table)
    ensures SortedByKey(Filled(als, nutr, resp))
    ensures forall k :: HasKey(Filled(als, nutr, resp), k) <==> HasKey(Merge3(als, nutr, resp), k)
  {
    SameKeysPointwise(Merge3(als, nutr, resp), Filled(als, nutr, resp));
  }

  lemma LoadFollowupDataRows(als: Table, nutr: Table, resp: Table, o: Row)
    requires o in LoadFollowupData(als, nutr, resp)
    ensures Complete(KeyOf(o))
    ensures exists b :: o == AddCalculatedFields(b) && KeyOf(b) == KeyOf(o)
              && forall c :: Cell(b, c) == FirstPresent(Filled(als, nutr, resp), KeyOf(o), c)
  {
    var f := Filled(als, nutr, resp);
    var d := Consolidate(f);
    var r := LoadFollowupData(als, nutr, resp);
    var i :| 0 <= i < |r| && r[i] == o;
    assert d[i] in d;
    forall c ensures Cell(d[i], c) == FirstPresent(f, KeyOf(d[i]), c) {
      ConsolidateCell(f, d[i], c);
    }
  }

  /** The follow-up table has no missing identifier; its rows are in strictly
      increasing (patient, date) order, so each key occurs once; its keys are
      exactly the complete keys found in any of the three sources; and each
      row is the derived-column extension of a row holding, per column, the
      first value present among the filled merged rows of its key. */
  lemma LoadFollowupDataSpec(als: Table, nutr: Table, resp: Table)
    ensures forall o :: o in LoadFollowupData(als, nutr, resp) ==> Complete(KeyOf(o))
    ensures StrictlySortedByKey(LoadFollowupData(als, nutr, resp))
    ensures forall k :: HasKey(LoadFollowupData(als, nutr, resp), k) <==>
              Complete(k) && (HasKey(als, k) || HasKey(nutr, k) || HasKey(resp, k))
    ensures forall o :: o in LoadFollowupData(als, nutr, resp) ==>
              exists b :: o == AddCalculatedFields(b) && KeyOf(b) == KeyOf(o)
                && forall c :: Cell(b, c) == FirstPresent(Filled(als, nutr, resp), KeyOf(o), c)
  {
    var f := Filled(als, nutr, resp);
    var d := Consolidate(f);
    FilledKeys(als, nutr, resp);
    ConsolidateSpec(f);
    SameKeysPointwise(d, AddCalculatedFieldsAll(d));
    forall o | o in LoadFollowupData(als, nutr, resp)
      ensures Complete(KeyOf(o))
      ensures exists b :: o == AddCalculatedFields(b) && KeyOf(b) == KeyOf(o)
                && forall c :: Cell(b, c) == FirstPresent(f, KeyOf(o), c)
    {
      LoadFollowupDataRows(als, nutr, resp, o);
    }
  }
}
