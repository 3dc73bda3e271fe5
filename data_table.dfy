/** The preview table of app/static/js/dataTableManager.js: the row records
    built at start-up, multi-column sorting, the sort-criteria click rule,
    per-instructor overlap marking, the filters, the select-all check box and
    the indices sent for deletion. The module-level state (`columnsConfig`,
    `rowsData`, `sortCriteria`, the select-all box) is the class `Table`;
    the DOM is not modelled. */
module DataTable {
  import opened Wrappers
  import opened Strings
  import opened ClientTime
  import Download

  /** A column: its header text, whether its header mentions "time" (which
      selects the minutes parser over the text parser) and whether clicking
      it sorts (every column but the first). */
  datatype Column = Column(name: string, isTime: bool, sortable: bool)

  datatype Direction = Asc | Desc

  datatype Criterion = Criterion(name: string, direction: Direction)

  /** One entry of `rowsData`: the trimmed cell texts by column name and the
      row's flags. */
  datatype RowItem = RowItem(data: map<string, string>, visible: bool, overlapped: bool, selected: bool, originalIndex: nat)

  // ------------------------------------------------------------- start-up

  /** The column built from the header at position `idx`. */
  function ColumnAt(header: string, idx: nat): (c: Column)
    ensures c.name == Strip(header)
    ensures c.isTime <==> Contains(Lower(Strip(header)), "time")
    ensures c.sortable <==> idx > 0
  {
    var name := Strip(header);
    Column(name, Contains(Lower(name), "time"), idx > 0)
  }

  function Columns(headers: seq<string>): (cols: seq<Column>)
    ensures |cols| == |headers|
    ensures forall i :: 0 <= i < |headers| ==> cols[i] == ColumnAt(headers[i], i)
  {
    seq(|headers|, i requires 0 <= i < |headers| => ColumnAt(headers[i], i))
  }

  /** The `data` object of a row: for each column in order, the trimmed text
      of the cell at the column's position, or "" when the row is shorter; a
      later column with the same name overwrites an earlier one. */
  function RowData(cols: seq<Column>, cells: seq<string>): map<string, string>
    decreases |cols|
  {
    if cols == [] then map[]
    else
      var n := |cols| - 1;
      RowData(cols[..n], cells)[cols[n].name := CellText(cells, n)]
  }

  /** `row.cells[idx]?.textContent.trim() || ""`. */
  function CellText(cells: seq<string>, idx: nat): string {
    if idx < |cells| then Strip(cells[idx]) else ""
  }

  /** The position of the last column called `key`. */
  function LastColumn(cols: seq<Column>, key: string): (r: Option<nat>)
    ensures r.Some? ==> r.value < |cols| && cols[r.value].name == key
    ensures r.Some? ==> forall j :: r.value < j < |cols| ==> cols[j].name != key
    ensures r.None? ==> forall i :: 0 <= i < |cols| ==> cols[i].name != key
    decreases |cols|
  {
    if cols == [] then None
    else if cols[|cols| - 1].name == key then Some(|cols| - 1)
    else
      var init := cols[..|cols| - 1];
      assert forall i :: 0 <= i < |init| ==> init[i] == cols[i];
      LastColumn(init, key)
  }

  /** The keys of a row's data are exactly the column names, and each holds
      the cell of the last column with that name. */
  lemma {:induction false} RowDataCells(cols: seq<Column>, cells: seq<string>, key: string)
    ensures key in RowData(cols, cells) <==> LastColumn(cols, key).Some?
    ensures key in RowData(cols, cells) ==> RowData(cols, cells)[key] == CellText(cells, LastColumn(cols, key).value)
    decreases |cols|
  {
    if cols != [] {
      RowDataCells(cols[..|cols| - 1], cells, key);
    }
  }

  /** A row of the table at start-up: visible, not overlapped, selected as
      its check box is, and numbered by its position. */
  function InitialRows(cols: seq<Column>, cells: seq<seq<string>>, checked: seq<bool>): (rows: seq<RowItem>)
    requires |checked| == |cells|
    ensures |rows| == |cells|
    ensures forall i :: 0 <= i < |rows| ==> rows[i].originalIndex == i && rows[i].selected == checked[i]
    ensures forall i :: 0 <= i < |rows| ==> rows[i].data == RowData(cols, cells[i])
  {
    seq(|cells|, i requires 0 <= i < |cells| => RowItem(RowData(cols, cells[i]), true, false, checked[i], i))
  }

  /** `item.data[name]`, with "" for a name the row lacks. */
  function Cell(item: RowItem, name: string): string {
    if name in item.data then item.data[name] else ""
  }

  // ----------------------------------------------------------------- sorting

  /** What a column's parser produces: minutes for a time column, the
      lower-cased text otherwise. */
  datatype SortKey = Minutes(value: JsValue) | Text(text: string)

  function KeyOf(col: Column, text: string): SortKey {
    if col.isTime then Minutes(ParseTimeToMinutes(text)) else Text(TextParser(text))
  }

  /** JavaScript `<` on two parsed values: numbers by value (false as soon as
      one is `NaN`), strings lexicographically. */
  predicate KeyLess(a: SortKey, b: SortKey) {
    match (a, b)
    case (Minutes(x), Minutes(y)) => x.Num? && y.Num? && x.n < y.n
    case (Text(s), Text(t)) => LexLess(s, t)
    case _ => false
  }

  function CompareKeys(a: SortKey, b: SortKey): (r: int)
    ensures r == -1 || r == 0 || r == 1
  {
    if KeyLess(a, b) then -1 else if KeyLess(b, a) then 1 else 0
  }

  lemma CompareKeysAntisymmetric(a: SortKey, b: SortKey)
    ensures CompareKeys(a, b) == -CompareKeys(b, a)
  {
    match (a, b) {
      case (Text(s), Text(t)) =>
        LexLessAsymmetric(s, t);
      case _ =>
    }
  }

  /** `columnsConfig.find(c => c.name === name)`. */
  function FindColumn(cols: seq<Column>, name: string): (r: Option<Column>)
    ensures r.Some? ==> r.value in cols && r.value.name == name
    ensures r.None? ==> forall i :: 0 <= i < |cols| ==> cols[i].name != name
  {
    if cols == [] then None
    else if cols[0].name == name then Some(cols[0])
    else FindColumn(cols[1..], name)
  }

  /** The comparison one criterion gives on its own: 0 when its column does
      not exist, negated for a descending criterion. */
  function CriterionCompare(a: RowItem, b: RowItem, c: Criterion, cols: seq<Column>): (r: int)
    ensures r == -1 || r == 0 || r == 1
  {
    match FindColumn(cols, c.name)
    case None => 0
    case Some(col) =>
      var cmp := CompareKeys(KeyOf(col, Cell(a, c.name)), KeyOf(col, Cell(b, c.name)));
      if c.direction == Asc then cmp else -cmp
  }

  /** The comparator `sortData` hands to `Array.prototype.sort`. */
  function Compare(a: RowItem, b: RowItem, criteria: seq<Criterion>, cols: seq<Column>): (r: int)
    ensures r == -1 || r == 0 || r == 1
  {
    if criteria == [] then 0
    else
      var first := CriterionCompare(a, b, criteria[0], cols);
      if first != 0 then first else Compare(a, b, criteria[1..], cols)
  }

  /** The first criterion that tells the rows apart decides, with its own
      direction. */
  lemma {:induction false} CompareDecidedBy(a: RowItem, b: RowItem, criteria: seq<Criterion>, cols: seq<Column>, k: nat)
    requires k < |criteria|
    requires forall i :: 0 <= i < k ==> CriterionCompare(a, b, criteria[i], cols) == 0
    ensures Compare(a, b, criteria, cols) == CriterionCompare(a, b, criteria[k], cols)
      || CriterionCompare(a, b, criteria[k], cols) == 0
    ensures CriterionCompare(a, b, criteria[k], cols) != 0 ==> Compare(a, b, criteria, cols) == CriterionCompare(a, b, criteria[k], cols)
    decreases k
  {
    if k > 0 {
      assert CriterionCompare(a, b, criteria[0], cols) == 0;
      CompareDecidedBy(a, b, criteria[1..], cols, k - 1);
    }
  }

  /** Rows that no criterion tells apart compare equal. */
  lemma {:induction false} CompareTie(a: RowItem, b: RowItem, criteria: seq<Criterion>, cols: seq<Column>)
    requires forall i :: 0 <= i < |criteria| ==> CriterionCompare(a, b, criteria[i], cols) == 0
    ensures Compare(a, b, criteria, cols) == 0
    decreases |criteria|
  {
    if criteria != [] {
      assert CriterionCompare(a, b, criteria[0], cols) == 0;
      CompareTie(a, b, criteria[1..], cols);
    }
  }

  /** Swapping the rows negates the comparison. */
  lemma {:induction false} CompareAntisymmetric(a: RowItem, b: RowItem, criteria: seq<Criterion>, cols: seq<Column>)
    ensures Compare(a, b, criteria, cols) == -Compare(b, a, criteria, cols)
    decreases |criteria|
  {
    if criteria != [] {
      var c := criteria[0];
      match FindColumn(cols, c.name) {
        case None =>
        case Some(col) =>
          CompareKeysAntisymmetric(KeyOf(col, Cell(a, c.name)), KeyOf(col, Cell(b, c.name)));
      }
      CompareAntisymmetric(a, b, criteria[1..], cols);
    }
  }

  /** Every row compares at most equal to the next one. */
  predicate Ordered(rows: seq<RowItem>, criteria: seq<Criterion>, cols: seq<Column>) {
    forall i :: 0 <= i < |rows| - 1 ==> Compare(rows[i], rows[i + 1], criteria, cols) <= 0
  }

  /** One step of a stable insertion sort: `x` goes after every row that
      does not compare greater than it. */
  function Insert(sorted: seq<RowItem>, x: RowItem, criteria: seq<Criterion>, cols: seq<Column>): (r: seq<RowItem>)
    ensures |r| == |sorted| + 1
    ensures r[|r| - 1] == x || (|sorted| > 0 && r[|r| - 1] == sorted[|sorted| - 1])
    decreases |sorted|
  {
    if sorted == [] then [x]
    else
      var last := sorted[|sorted| - 1];
      if Compare(last, x, criteria, cols) > 0 then Insert(sorted[..|sorted| - 1], x, criteria, cols) + [last]
      else sorted + [x]
  }

  /** The rows sorted by the criteria, by insertion. */
  function SortRows(rows: seq<RowItem>, criteria: seq<Criterion>, cols: seq<Column>): (r: seq<RowItem>)
    ensures |r| == |rows|
    decreases |rows|
  {
    if rows == [] then []
    else Insert(SortRows(rows[..|rows| - 1], criteria, cols), rows[|rows| - 1], criteria, cols)
  }

  lemma {:induction false} InsertPermutes(sorted: seq<RowItem>, x: RowItem, criteria: seq<Criterion>, cols: seq<Column>)
    ensures multiset(Insert(sorted, x, criteria, cols)) == multiset(sorted) + multiset{x}
    decreases |sorted|
  {
    if sorted != [] {
      var init := sorted[..|sorted| - 1];
      var last := sorted[|sorted| - 1];
      MultisetSnoc(sorted);
      if Compare(last, x, criteria, cols) > 0 {
        InsertPermutes(init, x, criteria, cols);
        var p := Insert(init, x, criteria, cols);
        assert Insert(sorted, x, criteria, cols) == p + [last];
        assert multiset(p + [last]) == multiset(p) + multiset{last};
      } else {
        assert Insert(sorted, x, criteria, cols) == sorted + [x];
        assert multiset(sorted + [x]) == multiset(sorted) + multiset{x};
      }
    }
  }

  /** Dropping the last row keeps the rest ordered. */
  lemma OrderedInit(rows: seq<RowItem>, criteria: seq<Criterion>, cols: seq<Column>)
    requires |rows| > 0 && Ordered(rows, criteria, cols)
    ensures Ordered(rows[..|rows| - 1], criteria, cols)
  {
    var init := rows[..|rows| - 1];
    forall i | 0 <= i < |init| - 1 ensures Compare(init[i], init[i + 1], criteria, cols) <= 0 {
      assert init[i] == rows[i] && init[i + 1] == rows[i + 1];
    }
  }

  /** Appending a row that does not compare below the last keeps the rows
      ordered. */
  lemma OrderedSnoc(rows: seq<RowItem>, y: RowItem, criteria: seq<Criterion>, cols: seq<Column>)
    requires |rows| > 0 && Ordered(rows, criteria, cols)
    requires Compare(rows[|rows| - 1], y, criteria, cols) <= 0
    ensures Ordered(rows + [y], criteria, cols)
  {
    var r := rows + [y];
    forall i | 0 <= i < |r| - 1 ensures Compare(r[i], r[i + 1], criteria, cols) <= 0 {
      if i < |rows| - 1 {
        assert r[i] == rows[i] && r[i + 1] == rows[i + 1];
      } else {
        assert r[i] == rows[|rows| - 1] && r[i + 1] == y;
      }
    }
  }

  /** Inserting into ordered rows keeps them ordered. */
  lemma {:induction false} InsertOrdered(sorted: seq<RowItem>, x: RowItem, criteria: seq<Criterion>, cols: seq<Column>)
    requires Ordered(sorted, criteria, cols)
    ensures Ordered(Insert(sorted, x, criteria, cols), criteria, cols)
    decreases |sorted|
  {
    if sorted != [] {
      var init := sorted[..|sorted| - 1];
      var last := sorted[|sorted| - 1];
      if Compare(last, x, criteria, cols) > 0 {
        OrderedInit(sorted, criteria, cols);
        InsertOrdered(init, x, criteria, cols);
        var p := Insert(init, x, criteria, cols);
        assert Compare(p[|p| - 1], last, criteria, cols) <= 0 by {
          if p[|p| - 1] == x {
            CompareAntisymmetric(x, last, criteria, cols);
          } else {
            assert init[|init| - 1] == sorted[|sorted| - 2];
          }
        }
        OrderedSnoc(p, last, criteria, cols);
      } else {
        OrderedSnoc(sorted, x, criteria, cols);
      }
    }
  }

  /** Sorting permutes the rows. */
  lemma {:induction false} SortRowsPermutes(rows: seq<RowItem>, criteria: seq<Criterion>, cols: seq<Column>)
    ensures multiset(SortRows(rows, criteria, cols)) == multiset(rows)
    decreases |rows|
  {
    if rows != [] {
      var init := rows[..|rows| - 1];
      var last := rows[|rows| - 1];
      var sorted := SortRows(init, criteria, cols);
      SortRowsStep(rows, criteria, cols);
      SortRowsPermutes(init, criteria, cols);
      InsertPermutes(sorted, last, criteria, cols);
      calc {
        multiset(SortRows(rows, criteria, cols));
        multiset(Insert(sorted, last, criteria, cols));
        multiset(sorted) + multiset{last};
        multiset(init) + multiset{last};
        { MultisetSnoc(rows); }
        multiset(rows);
      }
    }
  }

  lemma MultisetSnoc<T>(s: seq<T>)
    requires s != []
    ensures multiset(s) == multiset(s[..|s| - 1]) + multiset{s[|s| - 1]}
  {
    assert s == s[..|s| - 1] + [s[|s| - 1]];
  }

  lemma SortRowsStep(rows: seq<RowItem>, criteria: seq<Criterion>, cols: seq<Column>)
    requires rows != []
    ensures SortRows(rows, criteria, cols) == Insert(SortRows(rows[..|rows| - 1], criteria, cols), rows[|rows| - 1], criteria, cols)
  {}

  /** Sorting leaves the rows ordered by the criteria. */
  lemma {:induction false} SortRowsOrdered(rows: seq<RowItem>, criteria: seq<Criterion>, cols: seq<Column>)
    ensures Ordered(SortRows(rows, criteria, cols), criteria, cols)
    decreases |rows|
  {
    if rows != [] {
      var init := rows[..|rows| - 1];
      SortRowsOrdered(init, criteria, cols);
      InsertOrdered(SortRows(init, criteria, cols), rows[|rows| - 1], criteria, cols);
    }
  }

  /** Rows that are already ordered stay where they are; in particular
      sorting twice is sorting once. */
  lemma {:induction false} SortRowsKeepsOrdered(rows: seq<RowItem>, criteria: seq<Criterion>, cols: seq<Column>)
    requires Ordered(rows, criteria, cols)
    ensures SortRows(rows, criteria, cols) == rows
    decreases |rows|
  {
    if rows != [] {
      var init := rows[..|rows| - 1];
      assert Ordered(init, criteria, cols) by {
        forall i | 0 <= i < |init| - 1 ensures Compare(init[i], init[i + 1], criteria, cols) <= 0 {
          assert init[i] == rows[i] && init[i + 1] == rows[i + 1];
        }
      }
      SortRowsKeepsOrdered(init, criteria, cols);
      if |init| > 0 {
        assert init[|init| - 1] == rows[|rows| - 2];
      }
      assert init + [rows[|rows| - 1]] == rows;
    }
  }

  lemma SortTwice(rows: seq<RowItem>, criteria: seq<Criterion>, cols: seq<Column>)
    ensures SortRows(SortRows(rows, criteria, cols), criteria, cols) == SortRows(rows, criteria, cols)
  {
    SortRowsOrdered(rows, criteria, cols);
    SortRowsKeepsOrdered(SortRows(rows, criteria, cols), criteria, cols);
  }

  // ------------------------------------------------------- sort criteria

  predicate DistinctLabels(criteria: seq<Criterion>) {
    forall i, j :: 0 <= i < j < |criteria| ==> criteria[i].name != criteria[j].name
  }

  /** `sortCriteria.findIndex(sc => sc.name === name)`. */
  function FindCriterion(criteria: seq<Criterion>, name: string): (r: Option<nat>)
    ensures r.Some? ==> r.value < |criteria| && criteria[r.value].name == name
    ensures r.None? ==> forall i :: 0 <= i < |criteria| ==> criteria[i].name != name
  {
    if criteria == [] then None
    else if criteria[0].name == name then Some(0)
    else match FindCriterion(criteria[1..], name)
      case None => None
      case Some(i) => Some(i + 1)
  }

  function Flip(d: Direction): Direction {
    if d == Asc then Desc else Asc
  }

  /** The criteria after a click on the column `name`. A shift-click flips
      the column's criterion or appends it ascending; a plain click flips the
      sole criterion when it is this column's and otherwise makes the column
      the only, ascending, criterion. Labels stay distinct. */
  function NextCriteria(criteria: seq<Criterion>, name: string, shiftKey: bool): (r: seq<Criterion>)
    ensures DistinctLabels(criteria) ==> DistinctLabels(r)
    ensures exists i :: 0 <= i < |r| && r[i].name == name
    ensures shiftKey && FindCriterion(criteria, name).Some? ==>
      var i := FindCriterion(criteria, name).value;
      r == criteria[i := Criterion(name, Flip(criteria[i].direction))]
    ensures shiftKey && FindCriterion(criteria, name).None? ==> r == criteria + [Criterion(name, Asc)]
    ensures !shiftKey ==> |r| == 1
    ensures !shiftKey && |criteria| == 1 && criteria[0].name == name ==> r == [Criterion(name, Flip(criteria[0].direction))]
    ensures !shiftKey && !(|criteria| == 1 && criteria[0].name == name) ==> r == [Criterion(name, Asc)]
  {
    match FindCriterion(criteria, name)
    case Some(i) =>
      if shiftKey then
        var r := criteria[i := criteria[i].(direction := Flip(criteria[i].direction))];
        assert r[i].name == name;
        r
      else if |criteria| == 1 then
        var r := [criteria[0].(direction := Flip(criteria[0].direction))];
        assert r[0].name == name;
        r
      else SoleAscending(name)
    case None =>
      if shiftKey then
        var r := criteria + [Criterion(name, Asc)];
        assert r[|criteria|].name == name;
        r
      else SoleAscending(name)
  }

  /** `[{ label, direction: "asc" }]`. */
  function SoleAscending(name: string): (r: seq<Criterion>)
    ensures r == [Criterion(name, Asc)] && r[0].name == name
  {
    [Criterion(name, Asc)]
  }

  /** After a plain click the column is the sole criterion, and every
      further plain click on it flips its direction: two more clicks bring
      back the order of the first. */
  lemma PlainClickTwice(criteria: seq<Criterion>, name: string)
    ensures NextCriteria(NextCriteria(NextCriteria(criteria, name, false), name, false), name, false)
      == NextCriteria(criteria, name, false)
  {
    var once := NextCriteria(criteria, name, false);
    var twice := NextCriteria(once, name, false);
    assert once[0].name == name;
    assert twice == [Criterion(name, Flip(once[0].direction))];
  }

  // --------------------------------------------------------------- overlaps

  /** `it.data["Instructor"] || "__NO_INSTRUCTOR__"`. */
  function InstructorKey(item: RowItem): string {
    if Cell(item, "Instructor") != "" then Cell(item, "Instructor") else "__NO_INSTRUCTOR__"
  }

  /** JavaScript `<` on two minute values. */
  predicate Before(x: JsValue, y: JsValue) {
    x.Num? && y.Num? && x.n < y.n
  }

  /** What the overlap pass reads of a row: its instructor key and its
      start and end as minutes. The overlap functions take the minute parser
      as the parameter `minutes`; the table always passes
      `ParseTimeToMinutes`, the parser `onFilterChange` calls, and nothing
      proved about overlaps depends on how it reads a time. */
  datatype Slot = Slot(key: string, start: JsValue, end: JsValue)

  function SlotOf(item: RowItem, minutes: string -> JsValue): (s: Slot)
    ensures s.key == InstructorKey(item)
  {
    Slot(InstructorKey(item), minutes(Cell(item, "Start Time")), minutes(Cell(item, "End Time")))
  }

  function Slots(rows: seq<RowItem>, minutes: string -> JsValue): (r: seq<Slot>)
    ensures |r| == |rows|
    decreases |rows|
  {
    if rows == [] then [] else Slots(rows[..|rows| - 1], minutes) + [SlotOf(rows[|rows| - 1], minutes)]
  }

  lemma {:induction false} SlotsAt(rows: seq<RowItem>, minutes: string -> JsValue, k: nat)
    requires k < |rows|
    ensures Slots(rows, minutes)[k] == SlotOf(rows[k], minutes)
    decreases |rows|
  {
    if k < |rows| - 1 {
      SlotsAt(rows[..|rows| - 1], minutes, k);
    }
  }

  /** Two slots of the same instructor whose intervals intersect. */
  predicate SlotsClash(a: Slot, b: Slot) {
    a.key == b.key && Before(a.start, b.end) && Before(b.start, a.end)
  }

  /** The overlap test of `onFilterChange` on two rows. */
  predicate Clash(a: RowItem, b: RowItem, minutes: string -> JsValue) {
    SlotsClash(SlotOf(a, minutes), SlotOf(b, minutes))
  }

  lemma ClashSymmetric(a: Slot, b: Slot)
    ensures SlotsClash(a, b) <==> SlotsClash(b, a)
  {}

  /** The overlap test on two rows is the test on their slots. */
  lemma ClashAt(rows: seq<RowItem>, minutes: string -> JsValue, slots: seq<Slot>, i: nat, j: nat)
    requires slots == Slots(rows, minutes) && i < |rows| && j < |rows|
    ensures Clash(rows[i], rows[j], minutes) == SlotsClash(slots[i], slots[j])
  {
    SlotsAt(rows, minutes, i);
    SlotsAt(rows, minutes, j);
  }

  /** The row at `k` clashes with some other row of the table. */
  predicate HasClash(slots: seq<Slot>, k: nat)
    requires k < |slots|
  {
    exists m :: 0 <= m < |slots| && m != k && SlotsClash(slots[k], slots[m])
  }

  /** The pairs the nested loop has looked at: every pair whose first
      position is below `i`, and the pairs `(i, q)` with `q` below `j`. */
  predicate Seen(k: nat, m: nat, i: nat, j: nat) {
    (k < m && (k < i || (k == i && m < j))) || (m < k && (m < i || (m == i && k < j)))
  }

  predicate SeenClash(slots: seq<Slot>, k: nat, i: nat, j: nat)
    requires k < |slots|
  {
    exists m :: 0 <= m < |slots| && Seen(k, m, i, j) && SlotsClash(slots[k], slots[m])
  }

  /** The rows with the flags the loop has set once it reaches `(i, j)`. */
  function Marked(rows: seq<RowItem>, slots: seq<Slot>, i: nat, j: nat): (r: seq<RowItem>)
    requires |slots| == |rows|
    ensures |r| == |rows|
  {
    seq(|rows|, k requires 0 <= k < |rows| => rows[k].(overlapped := SeenClash(slots, k, i, j)))
  }

  /** Two bounds that see the same pairs mark the same rows. */
  lemma SameSeen(rows: seq<RowItem>, slots: seq<Slot>, i: nat, j: nat, i2: nat, j2: nat)
    requires |slots| == |rows|
    requires forall k, m :: 0 <= k < |rows| && 0 <= m < |rows| ==> (Seen(k, m, i, j) <==> Seen(k, m, i2, j2))
    ensures Marked(rows, slots, i, j) == Marked(rows, slots, i2, j2)
  {
    forall k | 0 <= k < |rows| ensures SeenClash(slots, k, i, j) == SeenClash(slots, k, i2, j2) {
      if SeenClash(slots, k, i, j) {
        var m :| 0 <= m < |slots| && Seen(k, m, i, j) && SlotsClash(slots[k], slots[m]);
        assert Seen(k, m, i2, j2);
      }
      if SeenClash(slots, k, i2, j2) {
        var m :| 0 <= m < |slots| && Seen(k, m, i2, j2) && SlotsClash(slots[k], slots[m]);
        assert Seen(k, m, i, j);
      }
    }
  }

  /** Looking at the pair `(i, j)` marks both rows when they clash. */
  lemma MarkedStep(rows: seq<RowItem>, slots: seq<Slot>, i: nat, j: nat)
    requires |slots| == |rows| && i < j < |rows|
    ensures Marked(rows, slots, i, j + 1) ==
      if SlotsClash(slots[i], slots[j])
      then Marked(rows, slots, i, j)[i := Marked(rows, slots, i, j)[i].(overlapped := true)]
                                    [j := Marked(rows, slots, i, j)[j].(overlapped := true)]
      else Marked(rows, slots, i, j)
  {
    ClashSymmetric(slots[i], slots[j]);
    forall k | 0 <= k < |rows| && k != i && k != j ensures SeenClash(slots, k, i, j + 1) == SeenClash(slots, k, i, j) {
      if SeenClash(slots, k, i, j + 1) {
        var m :| 0 <= m < |slots| && Seen(k, m, i, j + 1) && SlotsClash(slots[k], slots[m]);
        assert Seen(k, m, i, j);
      }
      if SeenClash(slots, k, i, j) {
        var m :| 0 <= m < |slots| && Seen(k, m, i, j) && SlotsClash(slots[k], slots[m]);
        assert Seen(k, m, i, j + 1);
      }
    }
    MarkedStepEnds(slots, i, j);
  }

  lemma MarkedStepEnds(slots: seq<Slot>, i: nat, j: nat)
    requires i < j < |slots|
    ensures SeenClash(slots, i, i, j + 1) == (SeenClash(slots, i, i, j) || SlotsClash(slots[i], slots[j]))
    ensures SeenClash(slots, j, i, j + 1) == (SeenClash(slots, j, i, j) || SlotsClash(slots[j], slots[i]))
  {
    if SlotsClash(slots[i], slots[j]) {
      assert Seen(i, j, i, j + 1);
    }
    if SlotsClash(slots[j], slots[i]) {
      assert Seen(j, i, i, j + 1);
    }
    if SeenClash(slots, i, i, j + 1) {
      var m :| 0 <= m < |slots| && Seen(i, m, i, j + 1) && SlotsClash(slots[i], slots[m]);
      assert m == j || Seen(i, m, i, j);
    }
    if SeenClash(slots, j, i, j + 1) {
      var m :| 0 <= m < |slots| && Seen(j, m, i, j + 1) && SlotsClash(slots[j], slots[m]);
      assert m == i || Seen(j, m, i, j);
    }
    if SeenClash(slots, i, i, j) {
      var m :| 0 <= m < |slots| && Seen(i, m, i, j) && SlotsClash(slots[i], slots[m]);
      assert Seen(i, m, i, j + 1);
    }
    if SeenClash(slots, j, i, j) {
      var m :| 0 <= m < |slots| && Seen(j, m, i, j) && SlotsClash(slots[j], slots[m]);
      assert Seen(j, m, i, j + 1);
    }
  }

  /** Finishing the pairs of `i` is starting those of `i + 1`. */
  lemma MarkedRowDone(rows: seq<RowItem>, slots: seq<Slot>, i: nat)
    requires |slots| == |rows| && i < |rows|
    ensures Marked(rows, slots, i, |rows|) == Marked(rows, slots, i + 1, i + 2)
  {
    SameSeen(rows, slots, i, |rows|, i + 1, i + 2);
  }

  /** Before the first pair no row is marked. */
  lemma MarkedNone(rows: seq<RowItem>, slots: seq<Slot>)
    requires |slots| == |rows|
    ensures forall k :: 0 <= k < |rows| ==> Marked(rows, slots, 0, 1)[k] == rows[k].(overlapped := false)
  {}

  /** After the last pair a row is marked exactly when it clashes with
      another. */
  lemma MarkedAll(rows: seq<RowItem>, slots: seq<Slot>)
    requires |slots| == |rows|
    ensures forall k :: 0 <= k < |rows| ==> Marked(rows, slots, |rows|, |rows| + 1)[k] == rows[k].(overlapped := HasClash(slots, k))
  {
    forall k | 0 <= k < |rows| ensures SeenClash(slots, k, |rows|, |rows| + 1) == HasClash(slots, k) {
      if HasClash(slots, k) {
        var m :| 0 <= m < |slots| && m != k && SlotsClash(slots[k], slots[m]);
        assert Seen(k, m, |rows|, |rows| + 1);
      }
    }
  }

  /** `rowsData.forEach(item => item.overlapped = false)`. */
  method ClearOverlaps(rows: seq<RowItem>) returns (out: seq<RowItem>)
    ensures |out| == |rows|
    ensures forall k :: 0 <= k < |rows| ==> out[k] == rows[k].(overlapped := false)
  {
    out := rows;
    for k := 0 to |out|
      invariant |out| == |rows|
      invariant forall t :: 0 <= t < k ==> out[t] == rows[t].(overlapped := false)
      invariant forall t :: k <= t < |rows| ==> out[t] == rows[t]
    {
      out := out[k := out[k].(overlapped := false)];
    }
  }

  /** The overlap pass of `onFilterChange`: clear every flag, then, for each
      pair of rows with the same instructor key, mark both when their
      intervals intersect. */
  method MarkOverlaps(rows: seq<RowItem>, minutes: string -> JsValue) returns (out: seq<RowItem>)
    ensures |out| == |rows|
    ensures forall k :: 0 <= k < |rows| ==> out[k] == rows[k].(overlapped := HasClash(Slots(rows, minutes), k))
  {
    out := ClearOverlaps(rows);
    var slots := Slots(rows, minutes);
    MarkedNone(rows, slots);
    assert out == Marked(rows, slots, 0, 1);
    for i := 0 to |rows|
      invariant out == Marked(rows, slots, i, i + 1)
    {
      out := MarkPairsOf(rows, minutes, slots, out, i);
      MarkedRowDone(rows, slots, i);
    }
    MarkedAll(rows, slots);
  }

  /** The inner loop: the pairs `(i, j)` for every `j` after `i`. */
  method MarkPairsOf(rows: seq<RowItem>, minutes: string -> JsValue, slots: seq<Slot>, marked: seq<RowItem>, i: nat) returns (out: seq<RowItem>)
    requires slots == Slots(rows, minutes) && i < |rows|
    requires marked == Marked(rows, slots, i, i + 1)
    ensures out == Marked(rows, slots, i, |rows|)
  {
    out := marked;
    for j := i + 1 to |rows|
      invariant out == Marked(rows, slots, i, j)
    {
      ghost var before := out;
      MarkedStep(rows, slots, i, j);
      ClashAt(rows, minutes, slots, i, j);
      if Clash(rows[i], rows[j], minutes) {
        out := out[i := out[i].(overlapped := true)][j := out[j].(overlapped := true)];
        assert out == before[i := before[i].(overlapped := true)][j := before[j].(overlapped := true)];
      }
    }
  }

  // ----------------------------------------------------------------- filters

  /** A filter text as `onFilterChange` reads it: trimmed and lower-cased. */
  function FilterText(raw: string): string {
    Lower(Strip(raw))
  }

  /** An empty filter passes every row; otherwise the row's text for that
      column, lower-cased, must contain it (a missing column never does). */
  predicate PassesText(data: map<string, string>, name: string, filter: string) {
    filter == "" || (name in data && Includes(Lower(data[name]), filter, 0))
  }

  /** `s.includes(t)`, searching from position `from` onwards. */
  predicate Includes(s: string, t: string, from: nat)
    decreases |s| - from
  {
    from <= |s| && (OccursAt(s, t, from) || Includes(s, t, from + 1))
  }

  /** The search finds `t` exactly when it occurs at or after `from`. */
  lemma {:induction false} IncludesIff(s: string, t: string, from: nat)
    ensures Includes(s, t, from) <==> exists i | from <= i <= |s| :: OccursAt(s, t, i)
    decreases |s| - from
  {
    if from <= |s| {
      IncludesIff(s, t, from + 1);
      if exists i | from <= i <= |s| :: OccursAt(s, t, i) {
        var i :| from <= i <= |s| && OccursAt(s, t, i);
        if i != from {
          assert from + 1 <= i;
        }
      }
    }
  }

  lemma IncludesContains(s: string, t: string)
    ensures Includes(s, t, 0) <==> Contains(s, t)
  {
    IncludesIff(s, t, 0);
  }

  predicate Passes(item: RowItem, instFilter: string, groupFilter: string, onlyOverlap: bool) {
    PassesText(item.data, "Instructor", instFilter) && PassesText(item.data, "Group", groupFilter)
    && (!onlyOverlap || item.overlapped)
  }

  /** The visibility pass of `onFilterChange`. */
  method ApplyFilters(rows: seq<RowItem>, instFilter: string, groupFilter: string, onlyOverlap: bool) returns (out: seq<RowItem>)
    ensures |out| == |rows|
    ensures forall k :: 0 <= k < |rows| ==> out[k] == rows[k].(visible := Passes(rows[k], instFilter, groupFilter, onlyOverlap))
  {
    out := rows;
    for k := 0 to |out|
      invariant |out| == |rows|
      invariant forall t :: 0 <= t < k ==> out[t] == rows[t].(visible := Passes(rows[t], instFilter, groupFilter, onlyOverlap))
      invariant forall t :: k <= t < |rows| ==> out[t] == rows[t]
    {
      var item := out[k];
      var passInst := instFilter == "" || ("Instructor" in item.data && Includes(Lower(item.data["Instructor"]), instFilter, 0));
      var passGroup := groupFilter == "" || ("Group" in item.data && Includes(Lower(item.data["Group"]), groupFilter, 0));
      var passOverlap := !onlyOverlap || item.overlapped;
      out := out[k := item.(visible := passInst && passGroup && passOverlap)];
    }
  }

  /** The rows after `onFilterChange`: overlap flags recomputed from scratch,
      then each row visible exactly when it passes all three filters. */
  function Filtered(rows: seq<RowItem>, minutes: string -> JsValue, instFilter: string, groupFilter: string, onlyOverlap: bool): (r: seq<RowItem>)
    ensures |r| == |rows|
  {
    var slots := Slots(rows, minutes);
    seq(|rows|, k requires 0 <= k < |rows| => ShowRow(rows[k], HasClash(slots, k), instFilter, groupFilter, onlyOverlap))
  }

  /** After the filter pass a row is marked exactly when it overlaps another
      row, is shown exactly when it passes both text filters and, with the
      overlap box ticked, overlaps; its data and selection stay. */
  lemma FilteredAt(rows: seq<RowItem>, minutes: string -> JsValue, instFilter: string, groupFilter: string, onlyOverlap: bool, k: nat)
    requires k < |rows|
    ensures Filtered(rows, minutes, instFilter, groupFilter, onlyOverlap)[k].overlapped == HasClash(Slots(rows, minutes), k)
    ensures Filtered(rows, minutes, instFilter, groupFilter, onlyOverlap)[k].visible <==>
      PassesText(rows[k].data, "Instructor", instFilter) && PassesText(rows[k].data, "Group", groupFilter)
      && (!onlyOverlap || HasClash(Slots(rows, minutes), k))
    ensures Filtered(rows, minutes, instFilter, groupFilter, onlyOverlap)[k].data == rows[k].data
    ensures Filtered(rows, minutes, instFilter, groupFilter, onlyOverlap)[k].selected == rows[k].selected
    ensures Filtered(rows, minutes, instFilter, groupFilter, onlyOverlap)[k].originalIndex == rows[k].originalIndex
  {
    var slots := Slots(rows, minutes);
    assert Filtered(rows, minutes, instFilter, groupFilter, onlyOverlap)[k] == ShowRow(rows[k], HasClash(slots, k), instFilter, groupFilter, onlyOverlap);
  }

  /** The overlap pass followed by the visibility pass is the filter pass. */
  lemma FilterPasses(rows: seq<RowItem>, minutes: string -> JsValue, marked: seq<RowItem>, shown: seq<RowItem>, instFilter: string, groupFilter: string, onlyOverlap: bool)
    requires |marked| == |rows| && forall k :: 0 <= k < |rows| ==> marked[k] == rows[k].(overlapped := HasClash(Slots(rows, minutes), k))
    requires |shown| == |marked|
    requires forall k :: 0 <= k < |marked| ==> shown[k] == marked[k].(visible := Passes(marked[k], instFilter, groupFilter, onlyOverlap))
    ensures shown == Filtered(rows, minutes, instFilter, groupFilter, onlyOverlap)
  {
    var slots := Slots(rows, minutes);
    var f := Filtered(rows, minutes, instFilter, groupFilter, onlyOverlap);
    forall k | 0 <= k < |rows| ensures shown[k] == f[k] {
      var o := HasClash(slots, k);
      assert f[k] == ShowRow(rows[k], o, instFilter, groupFilter, onlyOverlap);
      ShownRow(rows[k], o, marked[k], shown[k], instFilter, groupFilter, onlyOverlap);
    }
  }

  lemma ShownRow(item: RowItem, overlapped: bool, marked: RowItem, shown: RowItem, instFilter: string, groupFilter: string, onlyOverlap: bool)
    requires marked == item.(overlapped := overlapped)
    requires shown == marked.(visible := Passes(marked, instFilter, groupFilter, onlyOverlap))
    ensures shown == ShowRow(item, overlapped, instFilter, groupFilter, onlyOverlap)
  {
    ShowRowIs(item, overlapped, instFilter, groupFilter, onlyOverlap);
  }

  /** The row passes of `onFilterChange`: the filter texts are trimmed and
      lower-cased, overlaps are marked, then visibility is set. */
  method FilterRows(rows: seq<RowItem>, minutes: string -> JsValue, instructorText: string, groupText: string, onlyOverlap: bool) returns (shown: seq<RowItem>)
    ensures shown == Filtered(rows, minutes, FilterText(instructorText), FilterText(groupText), onlyOverlap)
  {
    var instFilter := FilterText(instructorText);
    var groupFilter := FilterText(groupText);
    var marked := MarkOverlaps(rows, minutes);
    shown := ApplyFilters(marked, instFilter, groupFilter, onlyOverlap);
    FilterPasses(rows, minutes, marked, shown, instFilter, groupFilter, onlyOverlap);
  }

  /** One row after `onFilterChange`, given whether it overlaps another. */
  function ShowRow(item: RowItem, overlapped: bool, instFilter: string, groupFilter: string, onlyOverlap: bool): (r: RowItem)
    ensures r.overlapped == overlapped
    ensures r.visible == (PassesText(item.data, "Instructor", instFilter) && PassesText(item.data, "Group", groupFilter)
                          && (!onlyOverlap || overlapped))
    ensures r.data == item.data && r.selected == item.selected && r.originalIndex == item.originalIndex
  {
    var marked := item.(overlapped := overlapped);
    marked.(visible := Passes(marked, instFilter, groupFilter, onlyOverlap))
  }

  lemma ShowRowIs(item: RowItem, overlapped: bool, instFilter: string, groupFilter: string, onlyOverlap: bool)
    ensures ShowRow(item, overlapped, instFilter, groupFilter, onlyOverlap)
      == item.(overlapped := overlapped).(visible := Passes(item.(overlapped := overlapped), instFilter, groupFilter, onlyOverlap))
  {}

  lemma EmptyFilterText()
    ensures FilterText("") == ""
  {
    assert Strip("") == "";
  }

  /** At start-up every row is shown, keeps its check box's selection and is
      numbered by its position. */
  lemma InitialTable(headers: seq<string>, cells: seq<seq<string>>, checked: seq<bool>, i: nat)
    requires |checked| == |cells| && i < |cells|
    ensures |Filtered(InitialRows(Columns(headers), cells, checked), ParseTimeToMinutes, "", "", false)| == |cells|
    ensures Filtered(InitialRows(Columns(headers), cells, checked), ParseTimeToMinutes, "", "", false)[i].visible
    ensures Filtered(InitialRows(Columns(headers), cells, checked), ParseTimeToMinutes, "", "", false)[i].selected == checked[i]
    ensures Filtered(InitialRows(Columns(headers), cells, checked), ParseTimeToMinutes, "", "", false)[i].originalIndex == i
  {
    FilteredAt(InitialRows(Columns(headers), cells, checked), ParseTimeToMinutes, "", "", false, i);
  }

  /** With no filter text and the overlap box off every row is shown. */
  lemma NoFilterShowsAll(rows: seq<RowItem>, minutes: string -> JsValue)
    ensures forall k :: 0 <= k < |rows| ==> Filtered(rows, minutes, "", "", false)[k].visible
  {
    forall k | 0 <= k < |rows| ensures Filtered(rows, minutes, "", "", false)[k].visible {
      FilteredAt(rows, minutes, "", "", false, k);
    }
  }

  /** Rows that clash are marked together. */
  lemma ClashMarksBoth(rows: seq<RowItem>, minutes: string -> JsValue, a: nat, b: nat, instFilter: string, groupFilter: string, onlyOverlap: bool)
    requires a < |rows| && b < |rows| && a != b && Clash(rows[a], rows[b], minutes)
    ensures Filtered(rows, minutes, instFilter, groupFilter, onlyOverlap)[a].overlapped
    ensures Filtered(rows, minutes, instFilter, groupFilter, onlyOverlap)[b].overlapped
  {
    var slots := Slots(rows, minutes);
    SlotsAt(rows, minutes, a);
    SlotsAt(rows, minutes, b);
    ClashSymmetric(slots[a], slots[b]);
    FilteredAt(rows, minutes, instFilter, groupFilter, onlyOverlap, a);
    FilteredAt(rows, minutes, instFilter, groupFilter, onlyOverlap, b);
  }

  // -------------------------------------------------------------- selection

  /** `rows.filter(p).length`. */
  function CountWhere(rows: seq<RowItem>, p: RowItem -> bool): (n: nat)
    ensures n <= |rows|
    decreases |rows|
  {
    if rows == [] then 0
    else CountWhere(rows[..|rows| - 1], p) + (if p(rows[|rows| - 1]) then 1 else 0)
  }

  lemma {:induction false} CountWherePositive(rows: seq<RowItem>, p: RowItem -> bool)
    ensures CountWhere(rows, p) > 0 <==> exists k :: 0 <= k < |rows| && p(rows[k])
    decreases |rows|
  {
    if rows != [] {
      var init := rows[..|rows| - 1];
      CountWherePositive(init, p);
      if exists k :: 0 <= k < |init| && p(init[k]) {
        var k :| 0 <= k < |init| && p(init[k]);
        assert rows[k] == init[k];
      }
      if exists k :: 0 <= k < |rows| && p(rows[k]) {
        var k :| 0 <= k < |rows| && p(rows[k]);
        if k < |init| {
          assert init[k] == rows[k];
        }
      }
    }
  }

  /** Counting a stronger condition gives at most as many, and as many
      exactly when every row meeting the weaker one meets the stronger. */
  lemma {:induction false} CountWhereSub(rows: seq<RowItem>, p: RowItem -> bool, q: RowItem -> bool)
    requires forall x :: q(x) ==> p(x)
    ensures CountWhere(rows, q) <= CountWhere(rows, p)
    ensures CountWhere(rows, q) == CountWhere(rows, p) <==> forall k :: 0 <= k < |rows| && p(rows[k]) ==> q(rows[k])
    decreases |rows|
  {
    if rows != [] {
      var init := rows[..|rows| - 1];
      CountWhereSub(init, p, q);
      if forall k :: 0 <= k < |rows| && p(rows[k]) ==> q(rows[k]) {
        forall k | 0 <= k < |init| && p(init[k]) ensures q(init[k]) {
          assert init[k] == rows[k];
        }
      }
      if CountWhere(rows, q) == CountWhere(rows, p) {
        forall k | 0 <= k < |rows| && p(rows[k]) ensures q(rows[k]) {
          if k < |init| {
            assert init[k] == rows[k];
          }
        }
      }
    }
  }

  predicate IsSelected(x: RowItem) {
    x.selected
  }

  predicate IsVisible(x: RowItem) {
    x.visible
  }

  predicate IsVisibleSelected(x: RowItem) {
    x.visible && x.selected
  }

  datatype SelectAll = SelectAll(checked: bool, indeterminate: bool)

  /** The select-all box: checked when some row is visible and every visible
      row is selected, indeterminate when some but not all visible rows are
      selected, and clear otherwise. */
  function SelectAllState(rows: seq<RowItem>): (r: SelectAll)
    ensures r.checked <==> (exists k :: 0 <= k < |rows| && rows[k].visible)
                           && (forall k :: 0 <= k < |rows| && rows[k].visible ==> rows[k].selected)
    ensures r.indeterminate <==> (exists k :: 0 <= k < |rows| && rows[k].visible && rows[k].selected)
                                 && (exists k :: 0 <= k < |rows| && rows[k].visible && !rows[k].selected)
    ensures !(r.checked && r.indeterminate)
  {
    var visible := CountWhere(rows, IsVisible);
    var selectedVisible := CountWhere(rows, IsVisibleSelected);
    CountWherePositive(rows, IsVisible);
    CountWherePositive(rows, IsVisibleSelected);
    CountWhereSub(rows, IsVisible, IsVisibleSelected);
    SelectAllOf(visible, selectedVisible)
  }

  /** The select-all box from the number of visible rows and of visible
      selected rows. */
  function SelectAllOf(visible: nat, selectedVisible: nat): SelectAll {
    if visible > 0 && selectedVisible == visible then SelectAll(true, false)
    else if selectedVisible > 0 then SelectAll(false, true)
    else SelectAll(false, false)
  }

  /** The rows after the select-all box is set to `checked`: every visible
      row takes that selection, hidden rows keep theirs. */
  function SelectVisible(rows: seq<RowItem>, checked: bool): (r: seq<RowItem>)
    ensures |r| == |rows|
    ensures forall k :: 0 <= k < |rows| ==> r[k] == if rows[k].visible then rows[k].(selected := checked) else rows[k]
  {
    seq(|rows|, k requires 0 <= k < |rows| => if rows[k].visible then rows[k].(selected := checked) else rows[k])
  }

  /** After select-all the box shows what was chosen and is never
      indeterminate, as long as some row is visible. */
  lemma SelectVisibleState(rows: seq<RowItem>, checked: bool)
    requires exists k :: 0 <= k < |rows| && rows[k].visible
    ensures SelectAllState(SelectVisible(rows, checked)) == SelectAll(checked, false)
  {
    var r := SelectVisible(rows, checked);
    var k :| 0 <= k < |rows| && rows[k].visible;
    assert r[k].visible;
  }

  // ---------------------------------------------------------------- delete

  /** `rowsData.filter(it => it.selected).map(it => it.originalIndex)`. */
  function SelectedIndices(rows: seq<RowItem>): (r: seq<nat>)
    ensures |r| == CountWhere(rows, IsSelected)
    ensures forall x :: x in r <==> exists k :: 0 <= k < |rows| && rows[k].selected && rows[k].originalIndex == x
    decreases |rows|
  {
    if rows == [] then []
    else
      var init := rows[..|rows| - 1];
      var last := rows[|rows| - 1];
      assert forall k :: 0 <= k < |init| ==> init[k] == rows[k];
      SelectedIndices(init) + (if last.selected then [last.originalIndex] else [])
  }

  /** The records the server keeps after the delete form is submitted are
      exactly those whose row was not selected. */
  lemma DeleteKeepsUnselected(rows: seq<RowItem>, recordCount: nat, i: nat)
    requires i < recordCount
    ensures i in Download.KeptPositions(recordCount, SelectedIndices(rows)) <==>
      forall k :: 0 <= k < |rows| && rows[k].selected ==> rows[k].originalIndex != i
  {
    Download.KeptIff(recordCount, SelectedIndices(rows), i);
  }

  // ------------------------------------------------------------------ state

  /** The module-level state of the table manager. */
  class Table {
    var columns: seq<Column>
    var rows: seq<RowItem>
    var sortCriteria: seq<Criterion>
    /** The select-all check box. */
    var selectAllChecked: bool
    var selectAllIndeterminate: bool
    /** The selected-rows counter and whether the delete form is shown. */
    var selectedCount: nat
    var deleteShown: bool

    ghost predicate Valid()
      reads this
    {
      DistinctLabels(sortCriteria)
      && SelectAll(selectAllChecked, selectAllIndeterminate) == SelectAllState(rows)
      && selectedCount == CountWhere(rows, IsSelected)
      && deleteShown == (selectedCount > 0)
    }

    /** `init`: columns from the trimmed headers, one row item per table row
      numbered by position, and a first filter pass with empty filters. */
    constructor(headers: seq<string>, cells: seq<seq<string>>, checked: seq<bool>)
      requires |checked| == |cells|
      ensures Valid()
      ensures columns == Columns(headers) && sortCriteria == []
      ensures rows == Filtered(InitialRows(Columns(headers), cells, checked), ParseTimeToMinutes, "", "", false)
    {
      var cols := Columns(headers);
      var shown := FilterRows(InitialRows(cols, cells, checked), ParseTimeToMinutes, "", "", false);
      EmptyFilterText();
      columns := cols;
      rows := shown;
      sortCriteria := [];
      selectAllChecked := false;
      selectAllIndeterminate := false;
      selectedCount := 0;
      deleteShown := false;
      new;
      UpdateSelectedCount();
    }

    /** `updateSelectedCount`. */
    method UpdateSelectedCount()
      modifies this
      ensures Valid() || !DistinctLabels(sortCriteria)
      ensures rows == old(rows) && columns == old(columns) && sortCriteria == old(sortCriteria)
      ensures selectedCount == CountWhere(rows, IsSelected) && deleteShown == (selectedCount > 0)
      ensures SelectAll(selectAllChecked, selectAllIndeterminate) == SelectAllState(rows)
    {
      selectedCount := CountWhere(rows, IsSelected);
      deleteShown := selectedCount > 0;
      var visible := CountWhere(rows, IsVisible);
      var selectedVisible := CountWhere(rows, IsVisibleSelected);
      if visible > 0 && selectedVisible == visible {
        selectAllChecked, selectAllIndeterminate := true, false;
      } else if selectedVisible > 0 {
        selectAllChecked, selectAllIndeterminate := false, true;
      } else {
        selectAllChecked, selectAllIndeterminate := false, false;
      }
      assert SelectAll(selectAllChecked, selectAllIndeterminate) == SelectAllOf(visible, selectedVisible);
    }

    /** `sortData`: nothing happens without criteria. */
    method SortData()
      modifies this
      ensures rows == if sortCriteria == [] then old(rows) else SortRows(old(rows), sortCriteria, columns)
      ensures columns == old(columns) && sortCriteria == old(sortCriteria)
      ensures selectAllChecked == old(selectAllChecked) && selectAllIndeterminate == old(selectAllIndeterminate)
      ensures selectedCount == old(selectedCount) && deleteShown == old(deleteShown)
    {
      if sortCriteria == [] {
        return;
      }
      rows := SortRows(rows, sortCriteria, columns);
    }

    /** `handleSortClick` on the sortable column at `c`. */
    method HandleSortClick(c: nat, shiftKey: bool)
      requires Valid() && c < |columns| && columns[c].sortable
      modifies this
      ensures Valid()
      ensures sortCriteria == NextCriteria(old(sortCriteria), old(columns)[c].name, shiftKey)
      ensures rows == SortRows(old(rows), sortCriteria, columns) && columns == old(columns)
    {
      sortCriteria := NextCriteria(sortCriteria, columns[c].name, shiftKey);
      ghost var before := rows;
      SortData();
      SortRowsPermutes(before, sortCriteria, columns);
      SortedSelectionState(before, rows);
    }

    /** `onFilterChange` with the raw filter texts and the overlap box. */
    method OnFilterChange(instructorText: string, groupText: string, onlyOverlap: bool)
      modifies this
      ensures Valid() || !DistinctLabels(sortCriteria)
      ensures rows == Filtered(old(rows), ParseTimeToMinutes, FilterText(instructorText), FilterText(groupText), onlyOverlap)
      ensures columns == old(columns) && sortCriteria == old(sortCriteria)
    {
      rows := FilterRows(rows, ParseTimeToMinutes, instructorText, groupText, onlyOverlap);
      UpdateSelectedCount();
    }

    /** A click on the row at `k` sets its selection. */
    method ToggleRow(k: nat, isSelected: bool)
      requires Valid() && k < |rows|
      modifies this
      ensures Valid()
      ensures rows == old(rows)[k := old(rows)[k].(selected := isSelected)]
      ensures columns == old(columns) && sortCriteria == old(sortCriteria)
    {
      rows := rows[k := rows[k].(selected := isSelected)];
      UpdateSelectedCount();
    }

    /** The select-all box set to `checked`: only visible rows change. */
    method ToggleSelectAll(checked: bool)
      requires Valid()
      modifies this
      ensures Valid()
      ensures rows == SelectVisible(old(rows), checked)
      ensures columns == old(columns) && sortCriteria == old(sortCriteria)
      ensures (exists k :: 0 <= k < |rows| && rows[k].visible) ==> selectAllChecked == checked && !selectAllIndeterminate
    {
      var rs := rows;
      for k := 0 to |rs|
        invariant |rs| == |rows|
        invariant forall t :: 0 <= t < k ==> rs[t] == if rows[t].visible then rows[t].(selected := checked) else rows[t]
        invariant forall t :: k <= t < |rows| ==> rs[t] == rows[t]
      {
        if rs[k].visible {
          rs := rs[k := rs[k].(selected := checked)];
        }
      }
      ghost var before := rows;
      rows := rs;
      UpdateSelectedCount();
      if exists k :: 0 <= k < |rows| && rows[k].visible {
        var k :| 0 <= k < |rows| && rows[k].visible;
        assert before[k].visible;
        SelectVisibleState(before, checked);
      }
    }

    /** The delete button: the selected rows' original indices joined by
      commas, or nothing submitted when no row is selected. */
    method DeleteSelected() returns (submitted: Option<string>)
      ensures submitted.Some? <==> exists k :: 0 <= k < |rows| && rows[k].selected
      ensures submitted.Some? ==> Download.ParseIndices(submitted.value) == Ok(SelectedIndices(rows))
    {
      var indices := SelectedIndices(rows);
      CountWherePositive(rows, IsSelected);
      if |indices| > 0 {
        Download.IndicesRoundTrip(indices);
        submitted := Some(Join(Download.Notations(indices), ","));
      } else {
        submitted := None;
      }
    }
  }

  /** Sorting permutes the rows, so it changes neither the counts nor the
      select-all state. */
  lemma SortedSelectionState(before: seq<RowItem>, after: seq<RowItem>)
    requires multiset(after) == multiset(before)
    ensures CountWhere(after, IsSelected) == CountWhere(before, IsSelected)
    ensures SelectAllState(after) == SelectAllState(before)
  {
    CountWherePermutation(before, after, IsSelected);
    CountWherePermutation(before, after, IsVisible);
    CountWherePermutation(before, after, IsVisibleSelected);
  }

  lemma {:induction false} CountWherePermutation(a: seq<RowItem>, b: seq<RowItem>, p: RowItem -> bool)
    requires multiset(a) == multiset(b)
    ensures CountWhere(a, p) == CountWhere(b, p)
    decreases |a|
  {
    if a != [] {
      var x := a[|a| - 1];
      var init := a[..|a| - 1];
      assert a == init + [x];
      assert x in multiset(b);
      var i :| 0 <= i < |b| && b[i] == x;
      var rest := b[..i] + b[i + 1..];
      assert b == b[..i] + [x] + b[i + 1..];
      assert multiset(a) == multiset(init) + multiset{x};
      assert multiset(b) == multiset(b[..i]) + multiset{x} + multiset(b[i + 1..]);
      assert multiset(rest) == multiset(b[..i]) + multiset(b[i + 1..]);
      assert multiset(init) == multiset(a) - multiset{x};
      assert multiset(rest) == multiset(b) - multiset{x};
      CountWherePermutation(init, rest, p);
      CountWhereRemove(b, i, p);
    }
  }

  lemma {:induction false} CountWhereRemove(b: seq<RowItem>, i: nat, p: RowItem -> bool)
    requires i < |b|
    ensures CountWhere(b, p) == CountWhere(b[..i] + b[i + 1..], p) + (if p(b[i]) then 1 else 0)
    decreases |b|
  {
    var n := |b| - 1;
    if i < n {
      var init := b[..n];
      CountWhereRemove(init, i, p);
      assert init[..i] + init[i + 1..] == (b[..i] + b[i + 1..])[..n - 1];
      assert (b[..i] + b[i + 1..])[n - 1] == b[n];
      assert init[i] == b[i];
    } else {
      assert b[..i] + b[i + 1..] == b[..n];
    }
  }
}
