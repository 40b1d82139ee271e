/**
 * The recommendation aggregator `helper(dis)`: five independent in-memory
 * tables, each filtered by disease name, combined into one record.
 */
module Knowledge {
  import opened Common

  /** One table row: the disease-name join key and the row's value column(s). */
  datatype Row<V> = Row(disease: string, value: V)

  /** The four precaution columns of a precautions row; a missing cell is None. */
  datatype PrecautionCells = PrecautionCells(
    precaution1: Option<string>,
    precaution2: Option<string>,
    precaution3: Option<string>,
    precaution4: Option<string>)

  /**
   * The five reference tables, in load order: `Disease`/`Description`,
   * `Disease`/`Precaution_1..4`, `Disease`/`Medication`, `Disease`/`Diet`,
   * and `disease`/`workout` (the workout table's key column is lower case).
   */
  datatype KnowledgeBase = KnowledgeBase(
    descriptions: seq<Row<string>>,
    precautions: seq<Row<PrecautionCells>>,
    medications: seq<Row<string>>,
    diets: seq<Row<string>>,
    workouts: seq<Row<string>>)

  /** The aggregated recommendation for one disease. */
  datatype Record = Record(
    description: string,
    precautions: seq<string>,
    medications: seq<string>,
    diets: seq<string>,
    workouts: seq<string>)

  /** The description used when the description table has no row for the disease. */
  const NoDescription: string := "No description available"

  /** No row of the table has the disease as its key. */
  ghost predicate NoMatch<V>(rows: seq<Row<V>>, disease: string) {
    forall i :: 0 <= i < |rows| ==> rows[i].disease != disease
  }

  /** Row `i` is the first row of the table whose key is the disease. */
  ghost predicate IsFirstMatch<V>(rows: seq<Row<V>>, disease: string, i: int) {
    0 <= i < |rows| && rows[i].disease == disease &&
    forall j :: 0 <= j < i ==> rows[j].disease != disease
  }

  /**
   * `table[table[key] == disease][column].values`: the value column of the
   * rows whose key equals the disease, in table order.
   */
  function Select<V>(rows: seq<Row<V>>, disease: string): (r: seq<V>)
    ensures |r| <= |rows|
    ensures forall k :: 0 <= k < |r| ==> Row(disease, r[k]) in rows
  {
    if rows == [] then []
    else
      var rest := Select(rows[1..], disease);
      assert forall k :: 0 <= k < |rest| ==> Row(disease, rest[k]) in rows[1..];
      (if rows[0].disease == disease then [rows[0].value] else []) + rest
  }

  /** Filtering a table split in two is filtering each part, in order. */
  lemma {:induction false} SelectConcat<V>(a: seq<Row<V>>, b: seq<Row<V>>, disease: string)
    ensures Select(a + b, disease) == Select(a, disease) + Select(b, disease)
    decreases |a|
  {
    if a != [] {
      assert (a + b)[1..] == a[1..] + b;
      SelectConcat(a[1..], b, disease);
    } else {
      assert a + b == b;
    }
  }

  /** A value is selected exactly when some row pairs the disease with it. */
  lemma {:induction false} SelectMember<V>(rows: seq<Row<V>>, disease: string, x: V)
    ensures x in Select(rows, disease) <==> exists i :: 0 <= i < |rows| && rows[i] == Row(disease, x)
    decreases |rows|
  {
    if rows != [] {
      SelectMember(rows[1..], disease, x);
      if exists i :: 0 <= i < |rows| && rows[i] == Row(disease, x) {
        var i :| 0 <= i < |rows| && rows[i] == Row(disease, x);
        if i > 0 {
          assert rows[1..][i - 1] == rows[i];
        }
      }
      if exists i :: 0 <= i < |rows[1..]| && rows[1..][i] == Row(disease, x) {
        var i :| 0 <= i < |rows[1..]| && rows[1..][i] == Row(disease, x);
        assert rows[i + 1] == Row(disease, x);
      }
    }
  }

  /** The list holds exactly the values the table pairs with the disease. */
  ghost predicate Collects<V(!new)>(list: seq<V>, rows: seq<Row<V>>, disease: string) {
    forall x :: x in list <==> exists i :: 0 <= i < |rows| && rows[i] == Row(disease, x)
  }

  /** The filter collects every value paired with the disease, and only those. */
  lemma SelectCollects<V(!new)>(rows: seq<Row<V>>, disease: string)
    ensures Collects(Select(rows, disease), rows, disease)
  {
    forall x
      ensures x in Select(rows, disease) <==> exists i :: 0 <= i < |rows| && rows[i] == Row(disease, x)
    {
      SelectMember(rows, disease, x);
    }
  }

  /**
   * The filter is empty exactly when no row matches, and otherwise its first
   * value is that of the first matching row.
   */
  lemma {:induction false} SelectFirst<V>(rows: seq<Row<V>>, disease: string)
    ensures Select(rows, disease) == [] <==> NoMatch(rows, disease)
    ensures Select(rows, disease) != [] ==>
      exists i :: IsFirstMatch(rows, disease, i) && Select(rows, disease)[0] == rows[i].value
    decreases |rows|
  {
    if rows != [] {
      SelectFirst(rows[1..], disease);
      if rows[0].disease == disease {
        assert IsFirstMatch(rows, disease, 0);
      } else {
        if NoMatch(rows[1..], disease) {
          forall i | 0 <= i < |rows|
            ensures rows[i].disease != disease
          {
            if i > 0 { assert rows[i] == rows[1..][i - 1]; }
          }
        } else {
          var i :| IsFirstMatch(rows[1..], disease, i) && Select(rows[1..], disease)[0] == rows[1..][i].value;
          forall j | 0 <= j < i + 1
            ensures rows[j].disease != disease
          {
            if j > 0 { assert rows[j] == rows[1..][j - 1]; }
          }
          assert IsFirstMatch(rows, disease, i + 1);
          assert !NoMatch(rows, disease);
        }
      }
    }
  }

  /** `[col for col in cells if pd.notnull(col)]`: the present cells, in order. */
  function DropNulls(cells: seq<Option<string>>): (r: seq<string>)
    ensures |r| <= |cells|
    ensures forall x :: x in r <==> Some(x) in cells
  {
    if cells == [] then []
    else
      var rest := DropNulls(cells[1..]);
      assert forall c :: c in cells <==> c == cells[0] || c in cells[1..];
      match cells[0]
      case None => rest
      case Some(x) => [x] + rest
  }

  /** Dropping nulls keeps the order of the cells that remain. */
  lemma {:induction false} DropNullsConcat(a: seq<Option<string>>, b: seq<Option<string>>)
    ensures DropNulls(a + b) == DropNulls(a) + DropNulls(b)
    decreases |a|
  {
    if a != [] {
      assert (a + b)[1..] == a[1..] + b;
      DropNullsConcat(a[1..], b);
    } else {
      assert a + b == b;
    }
  }

  /** The four precaution columns in left-to-right order. */
  function Cells(p: PrecautionCells): seq<Option<string>> {
    [p.precaution1, p.precaution2, p.precaution3, p.precaution4]
  }

  /**
   * The description: that of the first row for the disease, or the
   * placeholder when the table has none.
   */
  function DescriptionOf(table: seq<Row<string>>, disease: string): (r: string)
    ensures (exists i :: IsFirstMatch(table, disease, i) && r == table[i].value)
      || (NoMatch(table, disease) && r == NoDescription)
  {
    SelectFirst(table, disease);
    var found := Select(table, disease);
    if found == [] then NoDescription else found[0]
  }

  /**
   * The precautions: the non-null columns of the first row for the disease,
   * in column order, so at most four. A disease without a precautions row
   * fails (indexing the first row of an empty selection).
   */
  function PrecautionsOf(table: seq<Row<PrecautionCells>>, disease: string): (r: Result<seq<string>, Fault>)
    ensures r.Err? <==> NoMatch(table, disease)
    ensures r.Err? ==> r.error == NoPrecautionsRow(disease)
    ensures r.Ok? ==> exists i :: IsFirstMatch(table, disease, i) && r.value == DropNulls(Cells(table[i].value))
    ensures r.Ok? ==> |r.value| <= 4
  {
    SelectFirst(table, disease);
    var found := Select(table, disease);
    if found == [] then Err(NoPrecautionsRow(disease)) else Ok(DropNulls(Cells(found[0])))
  }

  /**
   * `helper(dis)`. Each table is filtered on its own: the medication, diet
   * and workout lists are the filters of their tables, so they hold one
   * value per matching row in table order (SelectConcat), and are empty
   * when no row matches, whatever the other tables hold. Only a missing precautions
   * row makes the whole call fail.
   */
  function Aggregate(kb: KnowledgeBase, disease: string): (r: Result<Record, Fault>)
    ensures r.Err? <==> NoMatch(kb.precautions, disease)
    ensures r.Err? ==> r.error == NoPrecautionsRow(disease)
    ensures r.Ok? ==> Ok(r.value.precautions) == PrecautionsOf(kb.precautions, disease)
    ensures r.Ok? ==> r.value.description == DescriptionOf(kb.descriptions, disease)
    ensures r.Ok? ==> (r.value.medications == [] <==> NoMatch(kb.medications, disease))
    ensures r.Ok? ==> (r.value.diets == [] <==> NoMatch(kb.diets, disease))
    ensures r.Ok? ==> (r.value.workouts == [] <==> NoMatch(kb.workouts, disease))
    ensures r.Ok? ==> r.value.medications == Select(kb.medications, disease)
    ensures r.Ok? ==> r.value.diets == Select(kb.diets, disease)
    ensures r.Ok? ==> r.value.workouts == Select(kb.workouts, disease)
    ensures r.Ok? ==> Collects(r.value.medications, kb.medications, disease)
    ensures r.Ok? ==> Collects(r.value.diets, kb.diets, disease)
    ensures r.Ok? ==> Collects(r.value.workouts, kb.workouts, disease)
  {
    SelectFirst(kb.medications, disease);
    SelectFirst(kb.diets, disease);
    SelectFirst(kb.workouts, disease);
    SelectCollects(kb.medications, disease);
    SelectCollects(kb.diets, disease);
    SelectCollects(kb.workouts, disease);
    match PrecautionsOf(kb.precautions, disease)
    case Err(f) => Err(f)
    case Ok(pre) =>
      Ok(Record(
        DescriptionOf(kb.descriptions, disease),
        pre,
        Select(kb.medications, disease),
        Select(kb.diets, disease),
        Select(kb.workouts, disease)))
  }
}
