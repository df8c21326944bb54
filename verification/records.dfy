/** The tabular records the follow-up pipeline works on: one row per visit,
    identified by (`id_paciente`, `fecha_visita`), whose other columns are
    nullable cells. A cell that is missing (NaN/NA/None) is simply absent
    from the row's map, so "fill a missing cell from another row" is map
    union. Dates are day numbers. */
module Records {
  import opened Nullable

  type Column = string
  type PatientId = int
  /** A calendar date as a day number. */
  type Date = int

  datatype Value = Num(n: int) | Flag(b: bool) | Text(s: string)

  type Cells = map<Column, Value>

  /** One visit row: the two identifier columns, either of which may be
      missing before rows are cleaned, and the other columns. */
  datatype Row = Row(patient: Option<PatientId>, date: Option<Date>, cells: Cells)

  type Table = seq<Row>

  datatype Key = Key(patient: Option<PatientId>, date: Option<Date>)

  function KeyOf(r: Row): Key
  {
    Key(r.patient, r.date)
  }

  /** Both identifier parts present. */
  predicate Complete(k: Key)
  {
    k.patient.Some? && k.date.Some?
  }

  function Cell(r: Row, c: Column): Option<Value>
  {
    if c in r.cells then Some(r.cells[c]) else None
  }

  /** A score column read as a nullable integer; a cell that is not a
      number reads as missing. */
  function IntCell(r: Row, c: Column): Option<int>
  {
    if c in r.cells && r.cells[c].Num? then Some(r.cells[c].n) else None
  }

  /** A flag column read as a nullable boolean. */
  function FlagCell(r: Row, c: Column): Option<bool>
  {
    if c in r.cells && r.cells[c].Flag? then Some(r.cells[c].b) else None
  }

  /** Two rows agree on every column exactly when their cell maps are equal. */
  lemma CellsExtensional(a: Row, b: Row)
    requires forall c :: Cell(a, c) == Cell(b, c)
    ensures a.cells == b.cells
  {
    forall c | c in a.cells
      ensures c in b.cells && a.cells[c] == b.cells[c]
    {
      assert Cell(a, c) == Cell(b, c);
    }
    forall c | c in b.cells
      ensures c in a.cells
    {
      assert Cell(a, c) == Cell(b, c);
    }
  }

  // ---------------------------------------------------------------------
  // Column names (src/projects/followup.py:8-58)
  // ---------------------------------------------------------------------

  /** The ten carry-forward columns. */
  const FfillColumns: set<Column> := {
    "portador_vmni", "indicacion_peg", "portador_peg", "disfagia", "espesante",
    "inicio_espesante", "supl_oral", "inicio_supl_oral", "supl_enteral",
    "inicio_supl_enteral"
  }

  const AlsfrsBulbarColumns: seq<Column> := ["lenguaje", "salivacion", "deglucion"]
  const AlsfrsMotorfColumns: seq<Column> := ["escritura", "cortar", "vestido"]
  const AlsfrsMotorgColumns: seq<Column> := ["cama", "caminar", "subir_escaleras"]
  const AlsfrsRespColumns: seq<Column> := ["disnea", "ortopnea", "insuf_resp"]
  const AlsfrsTotalColumns: seq<Column> := [
    "lenguaje", "salivacion", "deglucion", "escritura", "cortar", "vestido",
    "cama", "caminar", "subir_escaleras", "disnea", "ortopnea", "insuf_resp"
  ]

  // ---------------------------------------------------------------------
  // Key order used by pandas' outer merge: lexicographic on
  // (id_paciente, fecha_visita), a missing part sorting after every value.
  // ---------------------------------------------------------------------

  predicate OptBefore(x: Option<int>, y: Option<int>)
  {
    match (x, y)
    case (Some(a), Some(b)) => a < b
    case (Some(_), None) => true
    case (None, _) => false
  }

  predicate KeyBefore(a: Key, b: Key)
  {
    OptBefore(a.patient, b.patient) || (a.patient == b.patient && OptBefore(a.date, b.date))
  }

  predicate KeyAtMost(a: Key, b: Key)
  {
    a == b || KeyBefore(a, b)
  }

  lemma KeyBeforeIrreflexive(a: Key)
    ensures !KeyBefore(a, a)
  {
  }

  lemma KeyBeforeTransitive(a: Key, b: Key, c: Key)
    requires KeyBefore(a, b) && KeyBefore(b, c)
    ensures KeyBefore(a, c)
  {
  }

  lemma KeyTrichotomy(a: Key, b: Key)
    ensures KeyBefore(a, b) || a == b || KeyBefore(b, a)
  {
  }

  lemma KeyAtMostTransitive(a: Key, b: Key, c: Key)
    requires KeyAtMost(a, b) && KeyAtMost(b, c)
    ensures KeyAtMost(a, c)
  {
    if a != b && b != c {
      KeyBeforeTransitive(a, b, c);
    }
  }

  /** Rows grouped by patient and in date order. */
  predicate SortedByKey(t: Table)
  {
    forall i, j :: 0 <= i < j < |t| ==> KeyAtMost(KeyOf(t[i]), KeyOf(t[j]))
  }

  /** Sorted and without repeated keys. */
  predicate StrictlySortedByKey(t: Table)
  {
    forall i, j :: 0 <= i < j < |t| ==> KeyBefore(KeyOf(t[i]), KeyOf(t[j]))
  }

  lemma SortedCons(x: Row, s: Table)
    requires SortedByKey(s)
    requires forall o :: o in s ==> KeyAtMost(KeyOf(x), KeyOf(o))
    ensures SortedByKey([x] + s)
  {
    var t := [x] + s;
    forall i, j | 0 <= i < j < |t|
      ensures KeyAtMost(KeyOf(t[i]), KeyOf(t[j]))
    {
      if i == 0 {
        assert t[j] == s[j - 1];
        assert t[j] in s;
      } else {
        assert t[i] == s[i - 1] && t[j] == s[j - 1];
      }
    }
  }

  lemma SortedTail(s: Table)
    requires |s| > 0 && SortedByKey(s)
    ensures SortedByKey(s[1..])
    ensures forall o :: o in s[1..] ==> KeyAtMost(KeyOf(s[0]), KeyOf(o))
  {
    forall o | o in s[1..]
      ensures KeyAtMost(KeyOf(s[0]), KeyOf(o))
    {
      var j :| 0 <= j < |s[1..]| && s[1..][j] == o;
      assert s[j + 1] == o;
    }
  }

  lemma SortedConcat(a: Table, b: Table)
    requires SortedByKey(a) && SortedByKey(b)
    requires forall x, y :: x in a && y in b ==> KeyAtMost(KeyOf(x), KeyOf(y))
    ensures SortedByKey(a + b)
  {
    var t := a + b;
    forall i, j | 0 <= i < j < |t|
      ensures KeyAtMost(KeyOf(t[i]), KeyOf(t[j]))
    {
      if j < |a| {
        assert t[i] == a[i] && t[j] == a[j];
      } else if i >= |a| {
        assert t[i] == b[i - |a|] && t[j] == b[j - |a|];
      } else {
        assert t[i] == a[i] && t[j] == b[j - |a|];
        assert t[i] in a && t[j] in b;
      }
    }
  }

  lemma StrictConcat(a: Table, b: Table)
    requires StrictlySortedByKey(a) && StrictlySortedByKey(b)
    requires forall x, y :: x in a && y in b ==> KeyBefore(KeyOf(x), KeyOf(y))
    ensures StrictlySortedByKey(a + b)
  {
    var t := a + b;
    forall i, j | 0 <= i < j < |t|
      ensures KeyBefore(KeyOf(t[i]), KeyOf(t[j]))
    {
      if j < |a| {
        assert t[i] == a[i] && t[j] == a[j];
      } else if i >= |a| {
        assert t[i] == b[i - |a|] && t[j] == b[j - |a|];
      } else {
        assert t[i] == a[i] && t[j] == b[j - |a|];
        assert t[i] in a && t[j] in b;
      }
    }
  }

  /** Sorted rows whose keys are pairwise distinct are strictly sorted. */
  lemma SortedDistinctIsStrict(t: Table)
    requires SortedByKey(t)
    requires forall i, j :: 0 <= i < j < |t| ==> KeyOf(t[i]) != KeyOf(t[j])
    ensures StrictlySortedByKey(t)
  {
  }

  // ---------------------------------------------------------------------
  // Rows of one key
  // ---------------------------------------------------------------------

  predicate HasKey(t: Table, k: Key)
  {
    exists i :: 0 <= i < |t| && KeyOf(t[i]) == k
  }

  /** Two tables whose rows carry the same keys position by position have
      the same key set, and one is strictly sorted when the other is. */
  lemma SameKeysPointwise(a: Table, b: Table)
    requires |a| == |b|
    requires forall i :: 0 <= i < |a| ==> KeyOf(a[i]) == KeyOf(b[i])
    ensures forall k :: HasKey(a, k) <==> HasKey(b, k)
    ensures StrictlySortedByKey(a) ==> StrictlySortedByKey(b)
    ensures SortedByKey(a) ==> SortedByKey(b)
  {
    forall k ensures HasKey(a, k) <==> HasKey(b, k) {
      if HasKey(a, k) {
        var i :| 0 <= i < |a| && KeyOf(a[i]) == k;
        assert KeyOf(b[i]) == k;
      }
      if HasKey(b, k) {
        var i :| 0 <= i < |b| && KeyOf(b[i]) == k;
        assert KeyOf(a[i]) == k;
      }
    }
  }

  /** The rows of `t` whose key is `k`, in table order. */
  function RowsWith(t: Table, k: Key): (r: Table)
    ensures forall o :: o in r ==> o in t && KeyOf(o) == k
    ensures forall i :: 0 <= i < |t| && KeyOf(t[i]) == k ==> t[i] in r
    ensures r == [] <==> !HasKey(t, k)
  {
    if t == [] then []
    else if KeyOf(t[0]) == k then
      assert forall i :: 1 <= i < |t| ==> t[i] == t[1..][i - 1];
      [t[0]] + RowsWith(t[1..], k)
    else
      assert forall i :: 1 <= i < |t| ==> t[i] == t[1..][i - 1];
      assert HasKey(t, k) ==> HasKey(t[1..], k);
      RowsWith(t[1..], k)
  }

  lemma {:induction false} RowsWithAppend(a: Table, b: Table, k: Key)
    ensures RowsWith(a + b, k) == RowsWith(a, k) + RowsWith(b, k)
  {
    if a == [] {
      assert a + b == b;
    } else {
      assert (a + b)[1..] == a[1..] + b;
      RowsWithAppend(a[1..], b, k);
    }
  }

  /** A table all of whose rows carry key `k` is its own block for `k` and
      has no rows for any other key. */
  lemma {:induction false} RowsWithUniform(t: Table, k: Key, k': Key)
    requires forall o :: o in t ==> KeyOf(o) == k
    ensures RowsWith(t, k') == if k' == k then t else []
  {
    if t != [] {
      assert forall o :: o in t[1..] ==> o in t;
      RowsWithUniform(t[1..], k, k');
    }
  }
}
