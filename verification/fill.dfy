/** Gap filling and deduplication of the merged follow-up table
    (src/projects/followup.py:121-126): a forward fill of the carry-forward
    columns within each patient, dropping rows with a missing identifier,
    a backward fill within each exact (patient, date) key, and keeping the
    first row of each key. */
module Fill {
  import opened Nullable
  import opened Records

  /** The cells of `cells` that lie in columns `cols`. */
  function Pick(cells: Cells, cols: set<Column>): (r: Cells)
    ensures forall c :: c in r <==> c in cells && c in cols
    ensures forall c :: c in r ==> r[c] == cells[c]
  {
    map c | c in cells && c in cols :: cells[c]
  }

  // ---------------------------------------------------------------------
  // Forward fill within each patient: groupby('id_paciente')[cols].ffill()
  // ---------------------------------------------------------------------

  /** The latest non-missing value of column `c` among patient `p`'s rows
      of `t`, scanning in row order. */
  function LastValue(t: Table, p: PatientId, c: Column): Option<Value>
    decreases |t|
  {
    if t == [] then None
    else
      var last := t[|t| - 1];
      if last.patient == Some(p) && c in last.cells then Some(last.cells[c])
      else LastValue(t[..|t| - 1], p, c)
  }

  lemma {:induction false} LastValueSpec(t: Table, p: PatientId, c: Column)
    ensures LastValue(t, p, c).None? <==>
              forall j :: 0 <= j < |t| && t[j].patient == Some(p) ==> c !in t[j].cells
    ensures LastValue(t, p, c).Some? ==>
              exists j :: 0 <= j < |t| && t[j].patient == Some(p) && c in t[j].cells
                && LastValue(t, p, c).value == t[j].cells[c]
                && forall j' :: j < j' < |t| && t[j'].patient == Some(p) ==> c !in t[j'].cells
    decreases |t|
  {
    if t != [] {
      var init := t[..|t| - 1];
      LastValueSpec(init, p, c);
      assert forall j :: 0 <= j < |init| ==> init[j] == t[j];
      var last := t[|t| - 1];
      if last.patient == Some(p) && c in last.cells {
        assert t[|t| - 1].patient == Some(p) && c in t[|t| - 1].cells;
      }
    }
  }

  /** The per-patient state of a grouped forward-fill scan after the rows
      of `t`: the most recent value seen in each carry-forward column. */
  function Carried(t: Table, p: PatientId, cols: set<Column>): Cells
    decreases |t|
  {
    if t == [] then map[]
    else
      var last := t[|t| - 1];
      Carried(t[..|t| - 1], p, cols) + (if last.patient == Some(p) then Pick(last.cells, cols) else map[])
  }

  lemma {:induction false} CarriedIsLastValue(t: Table, p: PatientId, cols: set<Column>)
    ensures forall c :: c in Carried(t, p, cols) <==> c in cols && LastValue(t, p, c).Some?
    ensures forall c :: c in Carried(t, p, cols) ==> Carried(t, p, cols)[c] == LastValue(t, p, c).value
    decreases |t|
  {
    if t != [] {
      CarriedIsLastValue(t[..|t| - 1], p, cols);
    }
  }

  /** One row of the filled table. pandas leaves rows without a patient out
      of every group, so their carry-forward cells come back missing. */
  function FillRow(prefix: Table, row: Row, cols: set<Column>): Row
  {
    match row.patient
    case None => Row(row.patient, row.date, row.cells - cols)
    case Some(p) => Row(row.patient, row.date, Carried(prefix, p, cols) + row.cells)
  }

  function ForwardFill(t: Table, cols: set<Column>): (r: Table)
    ensures |r| == |t|
    ensures forall i :: 0 <= i < |t| ==> KeyOf(r[i]) == KeyOf(t[i])
  {
    seq(|t|, i requires 0 <= i < |t| => FillRow(t[..i], t[i], cols))
  }

  /** The filled cell of a carry-forward column holds the row's own value,
      or else the latest earlier value of the same patient; every other
      column is untouched. */
  lemma ForwardFillCells(t: Table, cols: set<Column>)
    ensures forall i, c :: 0 <= i < |t| && c !in cols ==>
              Cell(ForwardFill(t, cols)[i], c) == Cell(t[i], c)
    ensures forall i, c :: 0 <= i < |t| && c in cols && t[i].patient.None? ==>
              Cell(ForwardFill(t, cols)[i], c) == None
    ensures forall i, c :: 0 <= i < |t| && c in cols && t[i].patient.Some? ==>
              Cell(ForwardFill(t, cols)[i], c)
              == if c in t[i].cells then Some(t[i].cells[c]) else LastValue(t[..i], t[i].patient.value, c)
  {
    var r := ForwardFill(t, cols);
    forall i | 0 <= i < |t| && t[i].patient.Some?
      ensures forall c :: c !in cols ==> Cell(r[i], c) == Cell(t[i], c)
      ensures forall c :: c in cols ==>
                Cell(r[i], c) == if c in t[i].cells then Some(t[i].cells[c]) else LastValue(t[..i], t[i].patient.value, c)
    {
      CarriedIsLastValue(t[..i], t[i].patient.value, cols);
    }
  }

  /** A leading run of missing values stays missing: if no row of the
      patient up to row `i` has a value, the filled cell is missing. */
  lemma LeadingMissingStays(t: Table, cols: set<Column>, i: int, c: Column)
    requires 0 <= i < |t| && c in cols && t[i].patient.Some?
    requires forall j :: 0 <= j <= i && t[j].patient == t[i].patient ==> c !in t[j].cells
    ensures Cell(ForwardFill(t, cols)[i], c) == None
  {
    ForwardFillCells(t, cols);
    LastValueSpec(t[..i], t[i].patient.value, c);
  }

  /** Filling twice changes nothing more. */
  lemma ForwardFillIdempotent(t: Table, cols: set<Column>)
    ensures ForwardFill(ForwardFill(t, cols), cols) == ForwardFill(t, cols)
  {
    var f := ForwardFill(t, cols);
    var g := ForwardFill(f, cols);
    ForwardFillCells(t, cols);
    ForwardFillCells(f, cols);
    forall i | 0 <= i < |t|
      ensures g[i] == f[i]
    {
      forall c
        ensures Cell(g[i], c) == Cell(f[i], c)
      {
        if c in cols && t[i].patient.Some? && c !in f[i].cells {
          var p := t[i].patient.value;
          assert c !in t[i].cells;
          assert LastValue(t[..i], p, c).None?;
          LastValueSpec(t[..i], p, c);
          forall j | 0 <= j < i && f[j].patient == Some(p)
            ensures c !in f[j].cells
          {
            assert t[..i][j] == t[j];
            assert c !in t[j].cells;
            LastValueSpec(t[..j], p, c);
            assert forall j' :: 0 <= j' < j ==> t[..j][j'] == t[..i][j'];
          }
          LastValueSpec(f[..i], p, c);
          assert forall j :: 0 <= j < i ==> f[..i][j] == f[j];
        }
      }
      CellsExtensional(g[i], f[i]);
    }
  }

  // ---------------------------------------------------------------------
  // dropna(subset=['id_paciente', 'fecha_visita'])
  // ---------------------------------------------------------------------

  function DropMissingKeys(t: Table): (r: Table)
    ensures forall o :: o in r ==> o in t && Complete(KeyOf(o))
  {
    if t == [] then []
    else if Complete(KeyOf(t[0])) then [t[0]] + DropMissingKeys(t[1..])
    else DropMissingKeys(t[1..])
  }

  /** Dropping rows with an incomplete key keeps the rows of every
      complete key, in order. */
  lemma {:induction false} DropMissingKeysRows(t: Table, k: Key)
    requires Complete(k)
    ensures RowsWith(DropMissingKeys(t), k) == RowsWith(t, k)
  {
    if t != [] {
      DropMissingKeysRows(t[1..], k);
      var rest := DropMissingKeys(t[1..]);
      assert t == [t[0]] + t[1..];
      RowsWithAppend([t[0]], t[1..], k);
      if Complete(KeyOf(t[0])) {
        assert DropMissingKeys(t) == [t[0]] + rest;
        RowsWithAppend([t[0]], rest, k);
      } else {
        assert DropMissingKeys(t) == rest;
        assert RowsWith([t[0]], k) == [];
      }
    }
  }

  /** Dropping rows keeps a sorted table sorted. */
  lemma {:induction false} DropMissingKeysSorted(t: Table)
    requires SortedByKey(t)
    ensures SortedByKey(DropMissingKeys(t))
  {
    if t != [] {
      SortedTail(t);
      DropMissingKeysSorted(t[1..]);
      if Complete(KeyOf(t[0])) {
        assert DropMissingKeys(t) == [t[0]] + DropMissingKeys(t[1..]);
        SortedCons(t[0], DropMissingKeys(t[1..]));
      }
    }
  }

  lemma {:induction false} DropMissingKeysNoOp(t: Table)
    requires forall o :: o in t ==> Complete(KeyOf(o))
    ensures DropMissingKeys(t) == t
  {
    if t != [] {
      assert Complete(KeyOf(t[0])) by {
        assert t[0] in t;
      }
      assert forall o :: o in t[1..] ==> o in t;
      DropMissingKeysNoOp(t[1..]);
      assert t == [t[0]] + t[1..];
    }
  }

  // ---------------------------------------------------------------------
  // groupby(level=[0, 1]).bfill(): backward fill within each exact key
  // ---------------------------------------------------------------------

  /** The first non-missing value of column `c` among the rows of `s` with
      key `k`, in row order. */
  function FirstPresent(s: Table, k: Key, c: Column): Option<Value>
  {
    if s == [] then None
    else if KeyOf(s[0]) == k && c in s[0].cells then Some(s[0].cells[c])
    else FirstPresent(s[1..], k, c)
  }

  lemma {:induction false} FirstPresentSpec(s: Table, k: Key, c: Column)
    ensures FirstPresent(s, k, c).None? <==>
              forall j :: 0 <= j < |s| && KeyOf(s[j]) == k ==> c !in s[j].cells
    ensures FirstPresent(s, k, c).Some? ==>
              exists j :: 0 <= j < |s| && KeyOf(s[j]) == k && c in s[j].cells
                && FirstPresent(s, k, c).value == s[j].cells[c]
                && forall j' :: 0 <= j' < j && KeyOf(s[j']) == k ==> c !in s[j'].cells
  {
    if s != [] {
      FirstPresentSpec(s[1..], k, c);
      assert forall j :: 1 <= j < |s| ==> s[j] == s[1..][j - 1];
      if !(KeyOf(s[0]) == k && c in s[0].cells) && FirstPresent(s, k, c).Some? {
        var j :| 0 <= j < |s[1..]| && KeyOf(s[1..][j]) == k && c in s[1..][j].cells
                 && FirstPresent(s[1..], k, c).value == s[1..][j].cells[c]
                 && forall j' :: 0 <= j' < j && KeyOf(s[1..][j']) == k ==> c !in s[1..][j'].cells;
        assert s[j + 1] == s[1..][j];
      }
    }
  }

  /** Only the rows of key `k` matter to its first present values. */
  lemma {:induction false} FirstPresentRowsWith(s: Table, k: Key, c: Column)
    ensures FirstPresent(s, k, c) == FirstPresent(RowsWith(s, k), k, c)
  {
    if s != [] {
      FirstPresentRowsWith(s[1..], k, c);
      if KeyOf(s[0]) == k {
        assert RowsWith(s, k)[1..] == RowsWith(s[1..], k);
      }
    }
  }

  /** The back-filled cells of the first row of `s` for key `k`: later rows
      of the key fill the columns earlier ones leave missing. */
  function Gather(s: Table, k: Key): (r: Cells)
    ensures forall c :: c in r <==> FirstPresent(s, k, c).Some?
    ensures forall c :: c in r ==> r[c] == FirstPresent(s, k, c).value
  {
    if s == [] then map[]
    else Gather(s[1..], k) + (if KeyOf(s[0]) == k then s[0].cells else map[])
  }

  function KeyBackfill(t: Table): (r: Table)
    ensures |r| == |t|
    ensures forall i :: 0 <= i < |t| ==> KeyOf(r[i]) == KeyOf(t[i])
    ensures forall i, c :: 0 <= i < |t| ==> Cell(r[i], c) == FirstPresent(t[i..], KeyOf(t[i]), c)
  {
    seq(|t|, i requires 0 <= i < |t| => Row(t[i].patient, t[i].date, Gather(t[i..], KeyOf(t[i]))))
  }

  lemma KeyBackfillTail(t: Table)
    requires t != []
    ensures KeyBackfill(t)[1..] == KeyBackfill(t[1..])
  {
    forall i | 0 <= i < |t| - 1
      ensures KeyBackfill(t)[1..][i] == KeyBackfill(t[1..])[i]
    {
      assert t[1..][i..] == t[i + 1..];
    }
  }

  lemma {:induction false} GatherWithoutKey(s: Table, k: Key)
    requires !HasKey(s, k)
    ensures Gather(s, k) == map[]
  {
    if s != [] {
      assert forall j :: 0 <= j < |s[1..]| ==> s[1..][j] == s[j + 1];
      GatherWithoutKey(s[1..], k);
    }
  }

  // ---------------------------------------------------------------------
  // drop_duplicates(['id_paciente', 'fecha_visita']): keep the first row
  // ---------------------------------------------------------------------

  /** The first row of `t` with key `k`. */
  function FirstWith(t: Table, k: Key): (r: Row)
    requires HasKey(t, k)
    ensures r in t && KeyOf(r) == k
  {
    if KeyOf(t[0]) == k then t[0]
    else
      assert forall i :: 1 <= i < |t| ==> t[i] == t[1..][i - 1];
      FirstWith(t[1..], k)
  }

  /** Keeps each row whose key is neither in `seen` nor on an earlier row. */
  function Dedup(t: Table, seen: set<Key>): (r: Table)
    ensures forall o :: o in r ==> o in t && KeyOf(o) !in seen
    ensures forall i, j :: 0 <= i < j < |r| ==> KeyOf(r[i]) != KeyOf(r[j])
    ensures SortedByKey(t) ==> SortedByKey(r)
  {
    if t == [] then []
    else if KeyOf(t[0]) in seen then
      assert SortedByKey(t) ==> SortedByKey(t[1..]) by {
        if SortedByKey(t) { SortedTail(t); }
      }
      Dedup(t[1..], seen)
    else
      var rest := Dedup(t[1..], seen + {KeyOf(t[0])});
      assert SortedByKey(t) ==> SortedByKey([t[0]] + rest) by {
        if SortedByKey(t) {
          SortedTail(t);
          SortedCons(t[0], rest);
        }
      }
      [t[0]] + rest
  }

  lemma {:induction false} DedupPerKey(t: Table, seen: set<Key>, k: Key)
    ensures RowsWith(Dedup(t, seen), k) == if k in seen || !HasKey(t, k) then [] else [FirstWith(t, k)]
  {
    if t != [] {
      var k0 := KeyOf(t[0]);
      assert forall i :: 1 <= i < |t| ==> t[i] == t[1..][i - 1];
      assert k != k0 ==> (HasKey(t, k) <==> HasKey(t[1..], k));
      if k0 in seen {
        DedupPerKey(t[1..], seen, k);
      } else {
        var rest := Dedup(t[1..], seen + {k0});
        DedupPerKey(t[1..], seen + {k0}, k);
        assert ([t[0]] + rest)[1..] == rest;
      }
    }
  }

  lemma {:induction false} DedupNoOp(t: Table, seen: set<Key>)
    requires forall i, j :: 0 <= i < j < |t| ==> KeyOf(t[i]) != KeyOf(t[j])
    requires forall o :: o in t ==> KeyOf(o) !in seen
    ensures Dedup(t, seen) == t
  {
    if t != [] {
      assert forall o :: o in t[1..] ==> o in t && KeyOf(o) != KeyOf(t[0]) by {
        forall o | o in t[1..] ensures o in t && KeyOf(o) != KeyOf(t[0]) {
          var j :| 0 <= j < |t[1..]| && t[1..][j] == o;
          assert t[j + 1] == o;
        }
      }
      DedupNoOp(t[1..], seen + {KeyOf(t[0])});
    }
  }

  function DropDuplicates(t: Table): (r: Table)
    ensures forall o :: o in r ==> o in t
    ensures forall i, j :: 0 <= i < j < |r| ==> KeyOf(r[i]) != KeyOf(r[j])
    ensures SortedByKey(t) ==> SortedByKey(r)
  {
    Dedup(t, {})
  }

  /** The first back-filled row of a key holds, in every column, the first
      value present among all the rows of that key. */
  lemma {:induction false} FirstWithBackfill(t: Table, k: Key)
    requires HasKey(t, k)
    ensures HasKey(KeyBackfill(t), k)
    ensures forall c :: Cell(FirstWith(KeyBackfill(t), k), c) == FirstPresent(t, k, c)
  {
    var b := KeyBackfill(t);
    assert KeyOf(b[0]) == KeyOf(t[0]);
    if KeyOf(t[0]) == k {
      assert t[0..] == t;
    } else {
      assert forall i :: 1 <= i < |t| ==> t[i] == t[1..][i - 1];
      FirstWithBackfill(t[1..], k);
      KeyBackfillTail(t);
    }
  }

  // ---------------------------------------------------------------------
  // The whole clean-up after the forward fill
  // ---------------------------------------------------------------------

  function Consolidate(t: Table): (r: Table)
    ensures forall i, j :: 0 <= i < j < |r| ==> KeyOf(r[i]) != KeyOf(r[j])
  {
    DropDuplicates(KeyBackfill(DropMissingKeys(t)))
  }

  lemma KeyBackfillHasKey(d: Table, k: Key)
    ensures HasKey(KeyBackfill(d), k) <==> HasKey(d, k)
  {
    var b := KeyBackfill(d);
    if HasKey(d, k) {
      var i :| 0 <= i < |d| && KeyOf(d[i]) == k;
      assert KeyOf(b[i]) == k;
    }
    if HasKey(b, k) {
      var i :| 0 <= i < |b| && KeyOf(b[i]) == k;
      assert KeyOf(d[i]) == k;
    }
  }

  lemma ConsolidateHasKey(t: Table, k: Key)
    ensures HasKey(Consolidate(t), k) <==> Complete(k) && HasKey(t, k)
  {
    var d := DropMissingKeys(t);
    var b := KeyBackfill(d);
    DedupPerKey(b, {}, k);
    KeyBackfillHasKey(d, k);
    if Complete(k) {
      DropMissingKeysRows(t, k);
      assert RowsWith(d, k) == RowsWith(t, k);
    }
  }

  /** A cleaned row is the first back-filled row of its key, a key that
      is complete and present after the drop. */
  lemma ConsolidateRowOrigin(t: Table, o: Row)
    requires o in Consolidate(t)
    ensures Complete(KeyOf(o)) && HasKey(DropMissingKeys(t), KeyOf(o))
    ensures HasKey(KeyBackfill(DropMissingKeys(t)), KeyOf(o))
    ensures o == FirstWith(KeyBackfill(DropMissingKeys(t)), KeyOf(o))
  {
    var d := DropMissingKeys(t);
    DedupOrigin(KeyBackfill(d), o);
    KeyBackfillHasKey(d, KeyOf(o));
    DroppedKeyComplete(t, KeyOf(o));
  }

  /** A row kept by the first-occurrence deduplication is the first row of
      its key in the input. */
  lemma DedupOrigin(b: Table, o: Row)
    requires o in Dedup(b, {})
    ensures HasKey(b, KeyOf(o)) && o == FirstWith(b, KeyOf(o))
  {
    var r := Dedup(b, {});
    var k := KeyOf(o);
    assert o in RowsWith(r, k);
    DedupPerKey(b, {}, k);
  }

  lemma DroppedKeyComplete(t: Table, k: Key)
    requires HasKey(DropMissingKeys(t), k)
    ensures Complete(k)
  {
    var d := DropMissingKeys(t);
    var i :| 0 <= i < |d| && KeyOf(d[i]) == k;
    assert d[i] in d;
  }

  lemma ConsolidateCell(t: Table, o: Row, c: Column)
    requires o in Consolidate(t)
    ensures Complete(KeyOf(o))
    ensures Cell(o, c) == FirstPresent(t, KeyOf(o), c)
  {
    ConsolidateRowOrigin(t, o);
    var d := DropMissingKeys(t);
    var k := KeyOf(o);
    DropMissingKeysRows(t, k);
    FirstWithBackfill(d, k);
    FirstPresentRowsWith(d, k, c);
    FirstPresentRowsWith(t, k, c);
  }

  /** After clean-up no identifier is missing, each complete key of the
      input occurs exactly once, and its row holds, column by column, the
      first value present among the input rows of that key. */
  lemma ConsolidateSpec(t: Table)
    ensures forall o :: o in Consolidate(t) ==> Complete(KeyOf(o))
    ensures forall i, j :: 0 <= i < j < |Consolidate(t)| ==>
              KeyOf(Consolidate(t)[i]) != KeyOf(Consolidate(t)[j])
    ensures forall k :: HasKey(Consolidate(t), k) <==> Complete(k) && HasKey(t, k)
    ensures forall o, c :: o in Consolidate(t) ==> Cell(o, c) == FirstPresent(t, KeyOf(o), c)
    ensures SortedByKey(t) ==> StrictlySortedByKey(Consolidate(t))
  {
    var r := Consolidate(t);
    forall k ensures HasKey(r, k) <==> Complete(k) && HasKey(t, k) {
      ConsolidateHasKey(t, k);
    }
    forall o, c | o in r ensures Complete(KeyOf(o)) && Cell(o, c) == FirstPresent(t, KeyOf(o), c) {
      ConsolidateCell(t, o, c);
    }
    forall o | o in r ensures Complete(KeyOf(o)) {
      ConsolidateCell(t, o, "");
    }
    if SortedByKey(t) {
      var d := DropMissingKeys(t);
      DropMissingKeysSorted(t);
      assert SortedByKey(d);
      assert SortedByKey(KeyBackfill(d));
      SortedDistinctIsStrict(r);
    }
  }

  lemma KeyBackfillNoOp(t: Table)
    requires forall i, j :: 0 <= i < j < |t| ==> KeyOf(t[i]) != KeyOf(t[j])
    ensures KeyBackfill(t) == t
  {
    var b := KeyBackfill(t);
    forall i | 0 <= i < |t|
      ensures b[i] == t[i]
    {
      var s := t[i..];
      assert !HasKey(s[1..], KeyOf(t[i])) by {
        forall j | 0 <= j < |s[1..]| ensures KeyOf(s[1..][j]) != KeyOf(t[i]) {
          assert s[1..][j] == t[i + 1 + j];
        }
      }
      GatherWithoutKey(s[1..], KeyOf(t[i]));
      assert s[0] == t[i];
      assert Gather(s, KeyOf(t[i])) == map[] + t[i].cells;
    }
  }

  /** A table whose keys are complete and distinct is already clean. */
  lemma ConsolidateNoOp(t: Table)
    requires forall o :: o in t ==> Complete(KeyOf(o))
    requires forall i, j :: 0 <= i < j < |t| ==> KeyOf(t[i]) != KeyOf(t[j])
    ensures Consolidate(t) == t
  {
    DropMissingKeysNoOp(t);
    KeyBackfillNoOp(t);
    DedupNoOp(t, {});
  }

  /** Cleaning up a cleaned table changes nothing. */
  lemma ConsolidateIdempotent(t: Table)
    ensures Consolidate(Consolidate(t)) == Consolidate(t)
  {
    ConsolidateSpec(t);
    ConsolidateNoOp(Consolidate(t));
  }
}
