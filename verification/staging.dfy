/** Derived columns of a follow-up row (src/projects/followup.py:93-139,
    src/projects/_followup.py:61-95): the resolved `cortar` item, King's
    stage, MiToS stage and the ALSFRS sub-totals. Each computation is
    written with the pandas nullable operators of the source; its contract
    states the clinical rule it implements, in plain logic. */
module Staging {
  import opened Nullable
  import opened Records

  function B2I(b: bool): int
  {
    if b then 1 else 0
  }

  /** Score `c` present and strictly below `bound`. */
  predicate Below(row: Row, c: Column, bound: int)
  {
    IntCell(row, c).Some? && IntCell(row, c).value < bound
  }

  /** Score `c` present and at most `bound`. */
  predicate AtMostScore(row: Row, c: Column, bound: int)
  {
    IntCell(row, c).Some? && IntCell(row, c).value <= bound
  }

  // ---------------------------------------------------------------------
  // cortar
  // ---------------------------------------------------------------------

  /** `df.c = df[mask].src`, seen from one row. Assigning a filtered
      column aligns on the index, so the row takes `src`'s value when the
      mask selects it and is missing otherwise; the other columns stay. */
  function AssignWhere(row: Row, c: Column, selected: bool, src: Column): (r: Row)
    ensures KeyOf(r) == KeyOf(row)
    ensures forall d :: d != c ==> Cell(r, d) == Cell(row, d)
    ensures selected ==> Cell(r, c) == Cell(row, src)
    ensures !selected ==> Cell(r, c) == None
  {
    var u := map[c := if selected then Cell(row, src) else None];
    var cells := Assign(row.cells, u);
    forall d | d != c
      ensures (d in cells <==> d in row.cells) && (d in cells ==> cells[d] == row.cells[d])
    {
      assert d !in u;
    }
    assert c in u;
    Row(row.patient, row.date, cells)
  }

  /** A PEG carrier, as `portador_peg.fillna(False)` selects it. */
  predicate Carrier(row: Row)
  {
    FlagCell(row, "portador_peg") == Some(true)
  }

  /** The row after src/projects/followup.py:128-130: `cortar` cleared,
      then taken from `cortar_con_peg` on the carriers' rows, then the
      whole column taken from `cortar_sin_peg` on the other rows. Each mask
      is read from the row as it stands when its assignment runs. */
  function WithCortar(row: Row): Row
  {
    var cleared := AssignWhere(row, "cortar", false, "cortar");
    var withPeg := AssignWhere(cleared, "cortar", Carrier(cleared), "cortar_con_peg");
    AssignWhere(withPeg, "cortar", !Carrier(withPeg), "cortar_sin_peg")
  }

  /** The resolved `cortar` value of a row. */
  function ResolveCortar(row: Row): Option<Value>
  {
    Cell(WithCortar(row), "cortar")
  }

  /** The reassignment at line 130 replaces the values line 129 gave the
      carriers: on a carrier's row `cortar` ends up missing, on any other
      row (a missing flag included) it is `cortar_sin_peg`; no other
      column and neither key changes. */
  lemma CortarResolution(row: Row)
    ensures Carrier(row) ==> ResolveCortar(row) == None
    ensures !Carrier(row) ==> ResolveCortar(row) == Cell(row, "cortar_sin_peg")
    ensures KeyOf(WithCortar(row)) == KeyOf(row)
    ensures forall c :: c != "cortar" ==> Cell(WithCortar(row), c) == Cell(row, c)
  {
    var cleared := AssignWhere(row, "cortar", false, "cortar");
    var withPeg := AssignWhere(cleared, "cortar", Carrier(cleared), "cortar_con_peg");
    assert Cell(cleared, "portador_peg") == Cell(row, "portador_peg");
    assert Cell(withPeg, "portador_peg") == Cell(row, "portador_peg");
    assert Carrier(cleared) == Carrier(row) && Carrier(withPeg) == Carrier(row);
    assert Cell(withPeg, "cortar_sin_peg") == Cell(row, "cortar_sin_peg");
  }

  /** What the two masked assignments evidently aim at: carriers read
      `cortar_con_peg`, everyone else `cortar_sin_peg`. */
  function IntendedCortar(row: Row): Option<Value>
  {
    if Carrier(row) then Cell(row, "cortar_con_peg") else Cell(row, "cortar_sin_peg")
  }

  /** The resolved value agrees with the intended one exactly on the rows
      of non-carriers and of carriers without a `cortar_con_peg` value. */
  lemma CortarVersusIntended(row: Row)
    ensures ResolveCortar(row) == IntendedCortar(row) <==> !Carrier(row) || Cell(row, "cortar_con_peg").None?
  {
    CortarResolution(row);
  }

  /** A carrier scoring 2 with the tube and 3 without it gets no `cortar`
      at all, where 2 is meant. */
  lemma CortarCarrierExample()
    ensures var row := Row(Some(1), Some(0), map["portador_peg" := Flag(true),
                                                  "cortar_con_peg" := Num(2), "cortar_sin_peg" := Num(3)]);
      ResolveCortar(row) == None && IntendedCortar(row) == Some(Num(2))
  {
    var row := Row(Some(1), Some(0), map["portador_peg" := Flag(true),
                                         "cortar_con_peg" := Num(2), "cortar_sin_peg" := Num(3)]);
    assert Carrier(row);
    CortarResolution(row);
  }

  /** The `cortar_con_peg` item has no influence on the resolved column. */
  lemma CortarIgnoresWithPegItem(row: Row, v: Value)
    ensures ResolveCortar(Row(row.patient, row.date, row.cells["cortar_con_peg" := v])) == ResolveCortar(row)
  {
    var row' := Row(row.patient, row.date, row.cells["cortar_con_peg" := v]);
    CortarResolution(row);
    CortarResolution(row');
    assert FlagCell(row', "portador_peg") == FlagCell(row, "portador_peg");
    assert Cell(row', "cortar_sin_peg") == Cell(row, "cortar_sin_peg");
  }

  // ---------------------------------------------------------------------
  // King's stage
  // ---------------------------------------------------------------------

  /** End-stage: PEG indicated, or the dyspnea item at 0, or respiratory
      insufficiency below 4. */
  predicate KingsEndStage(row: Row)
  {
    FlagCell(row, "indicacion_peg") == Some(true)
    || IntCell(row, "disnea") == Some(0)
    || Below(row, "insuf_resp", 4)
  }

  predicate BulbarRegion(row: Row)
  {
    Below(row, "lenguaje", 4) || Below(row, "salivacion", 4) || Below(row, "deglucion", 4)
  }

  /** Upper limbs, read from `cortar_sin_peg` rather than the resolved `cortar`. */
  predicate UpperRegion(row: Row)
  {
    Below(row, "escritura", 4) || Below(row, "cortar_sin_peg", 4)
  }

  predicate LowerRegion(row: Row)
  {
    Below(row, "caminar", 4)
  }

  function KingsStage(row: Row): (r: Option<int>)
    ensures KingsEndStage(row) ==> r == Some(4)
    ensures !KingsEndStage(row) ==>
              r == if IntCell(row, "caminar").None? then None
                   else Some(B2I(BulbarRegion(row)) + B2I(UpperRegion(row)) + B2I(LowerRegion(row)))
    ensures r == Some(4) <==> KingsEndStage(row)
    ensures r.Some? ==> 0 <= r.value <= 4
  {
    var bulbar := AnySkipNa([Less(IntCell(row, "lenguaje"), 4), Less(IntCell(row, "salivacion"), 4),
                             Less(IntCell(row, "deglucion"), 4)]);
    var upper := AnySkipNa([Less(IntCell(row, "escritura"), 4), Less(IntCell(row, "cortar_sin_peg"), 4)]);
    var lower := Less(IntCell(row, "caminar"), 4);
    var endstage := Or(Or(FlagCell(row, "indicacion_peg"), Equals(IntCell(row, "disnea"), 0)),
                       Less(IntCell(row, "insuf_resp"), 4));
    AnyOfThree(Less(IntCell(row, "lenguaje"), 4), Less(IntCell(row, "salivacion"), 4),
               Less(IntCell(row, "deglucion"), 4));
    AnyOfTwo(Less(IntCell(row, "escritura"), 4), Less(IntCell(row, "cortar_sin_peg"), 4));
    var regions := Add(Add(AsInt(Some(bulbar)), AsInt(Some(upper))), AsInt(lower));
    var endstage4 := Scale(AsInt(endstage), 4);
    Where(Equals(endstage4, 4), endstage4, regions)
  }

  // ---------------------------------------------------------------------
  // MiToS stage
  // ---------------------------------------------------------------------

  /** One item of a MiToS domain: the domain is affected when the item's
      score is at most `bound`. */
  datatype Item = Item(column: Column, bound: int)

  const WalkingSelfcare: seq<Item> := [Item("caminar", 1), Item("vestido", 1)]
  const Swallowing: seq<Item> := [Item("deglucion", 1)]
  const Communicating: seq<Item> := [Item("lenguaje", 1), Item("escritura", 1)]
  const Breathing: seq<Item> := [Item("disnea", 1), Item("insuf_resp", 2)]

  predicate Affected(row: Row, domain: seq<Item>)
  {
    exists it :: it in domain && AtMostScore(row, it.column, it.bound)
  }

  /** The domain's flag is known: some item shows it affected, or every
      item is present. */
  predicate Determined(row: Row, domain: seq<Item>)
  {
    Affected(row, domain) || forall it :: it in domain ==> IntCell(row, it.column).Some?
  }

  /** The Kleene OR of a two-item domain's comparisons is true exactly when
      the domain is affected and known exactly when it is determined. */
  lemma PairFlag(row: Row, a: Item, b: Item)
    ensures Or(AtMost(IntCell(row, a.column), a.bound), AtMost(IntCell(row, b.column), b.bound)) == Some(true)
            <==> Affected(row, [a, b])
    ensures Or(AtMost(IntCell(row, a.column), a.bound), AtMost(IntCell(row, b.column), b.bound)).Some?
            <==> Determined(row, [a, b])
  {
    var x := AtMost(IntCell(row, a.column), a.bound);
    var y := AtMost(IntCell(row, b.column), b.bound);
    if Affected(row, [a, b]) {
      var it :| it in [a, b] && AtMostScore(row, it.column, it.bound);
    }
    if x == Some(false) && y == Some(false) {
      assert !Affected(row, [a, b]);
    }
    if x.None? && y != Some(true) {
      assert a in [a, b];
    }
    if y.None? && x != Some(true) {
      assert b in [a, b];
    }
  }

  lemma SingleFlag(row: Row, a: Item)
    ensures AtMost(IntCell(row, a.column), a.bound) == Some(true) <==> Affected(row, [a])
    ensures AtMost(IntCell(row, a.column), a.bound).Some? <==> Determined(row, [a])
  {
    if Affected(row, [a]) {
      var it :| it in [a] && AtMostScore(row, it.column, it.bound);
    }
    if IntCell(row, a.column).None? {
      assert a in [a];
    }
  }

  function AffectedCount(row: Row): int
  {
    B2I(Affected(row, WalkingSelfcare)) + B2I(Affected(row, Swallowing))
    + B2I(Affected(row, Communicating)) + B2I(Affected(row, Breathing))
  }

  function MitosStage(row: Row): (r: Option<int>)
    ensures r.Some? <==>
              Determined(row, WalkingSelfcare) && Determined(row, Swallowing)
              && Determined(row, Communicating) && Determined(row, Breathing)
    ensures r.Some? ==> r.value == AffectedCount(row) && 0 <= r.value <= 4
  {
    PairFlag(row, Item("caminar", 1), Item("vestido", 1));
    SingleFlag(row, Item("deglucion", 1));
    PairFlag(row, Item("lenguaje", 1), Item("escritura", 1));
    PairFlag(row, Item("disnea", 1), Item("insuf_resp", 2));
    var walking := Or(AtMost(IntCell(row, "caminar"), 1), AtMost(IntCell(row, "vestido"), 1));
    var swallowing := AtMost(IntCell(row, "deglucion"), 1);
    var communicating := Or(AtMost(IntCell(row, "lenguaje"), 1), AtMost(IntCell(row, "escritura"), 1));
    var breathing := Or(AtMost(IntCell(row, "disnea"), 1), AtMost(IntCell(row, "insuf_resp"), 2));
    var domains := AsInt(walking);
    var domains := Add(domains, AsInt(swallowing));
    var domains := Add(domains, AsInt(communicating));
    Add(domains, AsInt(breathing))
  }

  // ---------------------------------------------------------------------
  // ALSFRS sub-totals: sum(axis=1, skipna=False).astype('Int64')
  // ---------------------------------------------------------------------

  /** The items of `cols` all present and within the scale's 0..4. */
  predicate ItemsInScale(row: Row, cols: seq<Column>)
  {
    forall c :: c in cols ==> IntCell(row, c).Some? && 0 <= IntCell(row, c).value <= 4
  }

  function SubTotal(row: Row, cols: seq<Column>): (r: Option<int>)
    ensures r.Some? <==> forall c :: c in cols ==> IntCell(row, c).Some?
    ensures ItemsInScale(row, cols) ==> r.Some? && 0 <= r.value <= 4 * |cols|
  {
    if cols == [] then Some(0)
    else
      assert forall c :: c in cols[1..] ==> c in cols;
      Add(IntCell(row, cols[0]), SubTotal(row, cols[1..]))
  }

  /** A sub-total over three items is their plain sum. */
  lemma SubTotalOfThree(row: Row, a: Column, b: Column, c: Column)
    requires IntCell(row, a).Some? && IntCell(row, b).Some? && IntCell(row, c).Some?
    ensures SubTotal(row, [a, b, c])
            == Some(IntCell(row, a).value + IntCell(row, b).value + IntCell(row, c).value)
  {
    assert [a, b, c][1..] == [b, c];
    assert [b, c][1..] == [c];
    assert [c][1..] == [];
    assert SubTotal(row, [c]) == Some(IntCell(row, c).value);
    assert SubTotal(row, [b, c]) == Some(IntCell(row, b).value + IntCell(row, c).value);
  }

  lemma {:induction false} SubTotalAppend(row: Row, a: seq<Column>, b: seq<Column>)
    ensures SubTotal(row, a + b) == Add(SubTotal(row, a), SubTotal(row, b))
  {
    if a == [] {
      assert a + b == b;
    } else {
      assert (a + b)[0] == a[0];
      assert (a + b)[1..] == a[1..] + b;
      SubTotalAppend(row, a[1..], b);
    }
  }

  /** The total is the sum of the four sub-totals, since its column list is
      exactly their concatenation. */
  lemma TotalIsSumOfSubtotals(row: Row)
    ensures SubTotal(row, AlsfrsTotalColumns)
            == Add(Add(Add(SubTotal(row, AlsfrsBulbarColumns), SubTotal(row, AlsfrsMotorfColumns)),
                       SubTotal(row, AlsfrsMotorgColumns)),
                   SubTotal(row, AlsfrsRespColumns))
  {
    assert AlsfrsTotalColumns
           == AlsfrsBulbarColumns + AlsfrsMotorfColumns + AlsfrsMotorgColumns + AlsfrsRespColumns;
    SubTotalAppend(row, AlsfrsBulbarColumns + AlsfrsMotorfColumns + AlsfrsMotorgColumns, AlsfrsRespColumns);
    SubTotalAppend(row, AlsfrsBulbarColumns + AlsfrsMotorfColumns, AlsfrsMotorgColumns);
    SubTotalAppend(row, AlsfrsBulbarColumns, AlsfrsMotorfColumns);
  }

  /** With every item on the 0..4 scale, each sub-total lies in 0..12 and the
      total in 0..48. */
  lemma AlsfrsBounds(row: Row)
    requires ItemsInScale(row, AlsfrsTotalColumns)
    ensures SubTotal(row, AlsfrsBulbarColumns).Some? && SubTotal(row, AlsfrsBulbarColumns).value <= 12
    ensures SubTotal(row, AlsfrsMotorfColumns).Some? && SubTotal(row, AlsfrsMotorfColumns).value <= 12
    ensures SubTotal(row, AlsfrsMotorgColumns).Some? && SubTotal(row, AlsfrsMotorgColumns).value <= 12
    ensures SubTotal(row, AlsfrsRespColumns).Some? && SubTotal(row, AlsfrsRespColumns).value <= 12
    ensures SubTotal(row, AlsfrsTotalColumns).Some?
            && 0 <= SubTotal(row, AlsfrsTotalColumns).value <= 48
  {
    assert ItemsInScale(row, AlsfrsBulbarColumns);
    assert ItemsInScale(row, AlsfrsMotorfColumns);
    assert ItemsInScale(row, AlsfrsMotorgColumns);
    assert ItemsInScale(row, AlsfrsRespColumns);
  }

  // ---------------------------------------------------------------------
  // _add_calculated_fields
  // ---------------------------------------------------------------------

  const DerivedColumns: set<Column> := {
    "cortar", "kings_c", "mitos_c", "alsfrs_bulbar_c", "alsfrs_motorf_c",
    "alsfrs_motorg_c", "alsfrs_resp_c", "alsfrs_total_c"
  }

  function Lift(x: Option<int>): Option<Value>
  {
    match x
    case None => None
    case Some(v) => Some(Num(v))
  }

  /** Assigns every column of `updates`, a missing value leaving the cell
      absent, and keeps the other columns. */
  function Assign(cells: Cells, updates: map<Column, Option<Value>>): (r: Cells)
    ensures forall c :: c !in updates ==> (c in r <==> c in cells) && (c in r ==> r[c] == cells[c])
    ensures forall c :: c in updates ==> (c in r <==> updates[c].Some?) && (c in r ==> r[c] == updates[c].value)
  {
    map c | c in cells.Keys + updates.Keys && (c in updates ==> updates[c].Some?)
      :: if c in updates then updates[c].value else cells[c]
  }


  /** The value a derived column takes on a row. */
  function DerivedValue(row: Row, c: Column): Option<Value>
    requires c in DerivedColumns
  {
    if c == "cortar" then ResolveCortar(row)
    else if c == "kings_c" then Lift(KingsStage(row))
    else if c == "mitos_c" then Lift(MitosStage(row))
    else if c == "alsfrs_bulbar_c" then Lift(SubTotal(WithCortar(row), AlsfrsBulbarColumns))
    else if c == "alsfrs_motorf_c" then Lift(SubTotal(WithCortar(row), AlsfrsMotorfColumns))
    else if c == "alsfrs_motorg_c" then Lift(SubTotal(WithCortar(row), AlsfrsMotorgColumns))
    else if c == "alsfrs_resp_c" then Lift(SubTotal(WithCortar(row), AlsfrsRespColumns))
    else Lift(SubTotal(WithCortar(row), AlsfrsTotalColumns))
  }

  function AddCalculatedFields(row: Row): (r: Row)
    ensures KeyOf(r) == KeyOf(row)
    ensures forall c :: c !in DerivedColumns ==> Cell(r, c) == Cell(row, c)
    ensures forall c :: c in DerivedColumns ==> Cell(r, c) == DerivedValue(row, c)
  {
    var d := map c | c in DerivedColumns :: DerivedValue(row, c);
    Row(row.patient, row.date, Assign(row.cells, d))
  }

  /** On a PEG carrier's row the resolved `cortar` is missing, and with it
      the fine-motor sub-total and the total; on any other row `cortar`
      is `cortar_sin_peg`. */
  lemma CarrierLosesCortar(row: Row)
    ensures FlagCell(row, "portador_peg") == Some(true) ==>
              Cell(AddCalculatedFields(row), "cortar") == None
              && Cell(AddCalculatedFields(row), "alsfrs_motorf_c") == None
              && Cell(AddCalculatedFields(row), "alsfrs_total_c") == None
    ensures FlagCell(row, "portador_peg") != Some(true) ==>
              Cell(AddCalculatedFields(row), "cortar") == Cell(row, "cortar_sin_peg")
  {
    DerivedCell(row, "cortar");
    CortarResolution(row);
    if FlagCell(row, "portador_peg") == Some(true) {
      DerivedCell(row, "alsfrs_motorf_c");
      DerivedCell(row, "alsfrs_total_c");
      CarrierSubTotals(row);
    }
  }

  lemma DerivedCell(row: Row, c: Column)
    requires c in DerivedColumns
    ensures Cell(AddCalculatedFields(row), c) == DerivedValue(row, c)
  {
  }

  /** Without a resolved `cortar` the sub-totals that include it are missing. */
  lemma CarrierSubTotals(row: Row)
    requires FlagCell(row, "portador_peg") == Some(true)
    ensures SubTotal(WithCortar(row), AlsfrsMotorfColumns).None?
    ensures SubTotal(WithCortar(row), AlsfrsTotalColumns).None?
  {
    var w := WithCortar(row);
    CortarResolution(row);
    assert IntCell(w, "cortar").None?;
    assert "cortar" in AlsfrsMotorfColumns && "cortar" in AlsfrsTotalColumns;
  }
}
