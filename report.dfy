/**
 * The report script's table: one record per match of the log pattern (file name and
 * stripped object items), then the pandas steps that turn the records into rows with an
 * `Object Count` column and one column per object category.
 */
module Report {
  import opened Wrappers
  import opened Text
  import opened Pattern

  /** One entry of `data`: the image's file name and its object items. */
  datatype Record = Record(filename: string, objects: seq<string>)

  /** One row of the finished table: the file name, `Object Count`, and a cell per category column. */
  datatype Row = Row(filename: string, objectCount: nat, cells: map<string, int>)

  /** The finished table: its category columns and its rows, in the order of the records. */
  datatype Table = Table(categories: set<string>, rows: seq<Row>)

  /**
   * Why the script stops before it has a table: with no record the frame has no
   * `Objects` column (a `KeyError`), an item with fewer than two words has no label
   * (an `IndexError`), and a count that `int()` refuses raises a `ValueError`.
   */
  datatype Error = NoRecords | LabelMissing | CountNotInteger

  // ---------------------------------------------------------------------------
  // Records
  // ---------------------------------------------------------------------------

  /** `[obj.strip() for obj in objects.split(',')]`. */
  function Items(objects: string): seq<string> {
    var pieces := SplitOn(objects, ',');
    seq(|pieces|, k requires 0 <= k < |pieces| => Strip(pieces[k]))
  }

  /** The record the loop body builds from one match; resolution and time are dropped. */
  function ToRecord(m: Match): Record {
    Record(LastComponent(m.path), Items(m.objects))
  }

  /** The whole of `data`: one record per match, in the order of the matches. */
  function Records(matches: seq<Match>): seq<Record> {
    seq(|matches|, i requires 0 <= i < |matches| => ToRecord(matches[i]))
  }

  /** The `for match in matches` loop, appending one record per match to `data`. */
  method BuildRecords(matches: seq<Match>) returns (data: seq<Record>)
    ensures |data| == |matches|
    ensures forall i :: 0 <= i < |matches| ==> data[i] == ToRecord(matches[i])
  {
    data := [];
    for i := 0 to |matches|
      invariant |data| == i
      invariant forall j :: 0 <= j < i ==> data[j] == ToRecord(matches[j])
    {
      var m := matches[i];
      var filename := LastComponent(m.path);
      var objectsList := Items(m.objects);
      data := data + [Record(filename, objectsList)];
    }
  }

  /** There are as many items as commas plus one, and none of them holds a comma. */
  lemma ItemsCount(objects: string)
    ensures |Items(objects)| == Occurrences(objects, ',') + 1
    ensures forall k :: 0 <= k < |Items(objects)| ==> ',' !in Items(objects)[k]
  {
    var pieces := SplitOn(objects, ',');
    SplitOnPieces(objects, ',');
    forall k | 0 <= k < |pieces| ensures ',' !in Items(objects)[k] {
      var i, j := StripBounds(pieces[k]);
    }
  }

  /** Each item is a stripped piece: stripping it again changes nothing. */
  lemma ItemsStripped(objects: string)
    ensures forall k :: 0 <= k < |Items(objects)| ==> Strip(Items(objects)[k]) == Items(objects)[k]
  {
    var pieces := SplitOn(objects, ',');
    forall k | 0 <= k < |pieces| ensures Strip(Items(objects)[k]) == Items(objects)[k] {
      StripIdempotent(pieces[k]);
    }
  }

  /** An item text `2 person` (no comma, no surrounding whitespace). */
  predicate Clean(item: string) {
    ',' !in item && Strip(item) == item
  }

  /** Joining clean items with ", " and splitting again gives them back. */
  lemma {:induction false} ItemsJoin(items: seq<string>)
    requires |items| >= 1 && forall k :: 0 <= k < |items| ==> Clean(items[k])
    ensures Items(JoinItems(items)) == items
  {
    var pieces := Pieces(items);
    PiecesJoin(items);
    SplitOnJoin(pieces, ',');
    forall k | 0 <= k < |pieces| ensures Strip(pieces[k]) == items[k] {
      var w := items[k];
      assert AllSpace(if k == 0 then "" else " ") by {
        if k > 0 { assert IsSpace(" "[0]); }
      }
      assert |w| > 0 ==> !IsSpace(w[0]) && !IsSpace(w[|w| - 1]) by {
        var i, j := StripBounds(w);
        if |w| > 0 {
          assert w[i..j] == w;
          assert w[0] == w[i..j][0];
          assert w[|w| - 1] == w[i..j][j - i - 1];
        }
      }
      StripPadded(if k == 0 then "" else " ", w, "");
      assert (if k == 0 then "" else " ") + w + "" == pieces[k];
    }
  }

  /** The object text a detector writes for a list of items: `", ".join(items)`. */
  function JoinItems(items: seq<string>): string
    requires |items| >= 1
    decreases |items|
  {
    if |items| == 1 then items[0] else items[0] + ", " + JoinItems(items[1..])
  }

  /** The comma-separated pieces of `JoinItems(items)`: the first item, then each later one after a space. */
  function Pieces(items: seq<string>): (r: seq<string>)
    ensures |r| == |items|
  {
    seq(|items|, k requires 0 <= k < |items| => if k == 0 then items[k] else " " + items[k])
  }

  lemma {:induction false} PiecesJoin(items: seq<string>)
    requires |items| >= 1 && forall k :: 0 <= k < |items| ==> ',' !in items[k]
    ensures Join(Pieces(items), ',') == JoinItems(items)
    ensures forall k :: 0 <= k < |items| ==> ',' !in Pieces(items)[k]
    decreases |items|
  {
    if |items| > 1 {
      var rest := items[1..];
      PiecesJoin(rest);
      var p := Pieces(items);
      var q := Pieces(rest);
      assert p[1..] == [" " + rest[0]] + q[1..];
      assert Join(p[1..], ',') == " " + JoinItems(rest) by {
        if |rest| == 1 {
          assert Join(p[1..], ',') == " " + rest[0];
        } else {
          assert Join(p[1..], ',') == (" " + rest[0]) + [','] + Join(q[1..], ',');
          assert Join(q, ',') == rest[0] + [','] + Join(q[1..], ',');
        }
      }
      assert Join(p, ',') == items[0] + [','] + (" " + JoinItems(rest));
      assert items[0] + ", " + JoinItems(rest) == items[0] + [','] + (" " + JoinItems(rest));
    }
    forall k | 0 <= k < |items| ensures ',' !in Pieces(items)[k] {
      if k > 0 { assert Pieces(items)[k] == " " + items[k]; }
    }
  }

  // ---------------------------------------------------------------------------
  // Labels, counts and cells
  // ---------------------------------------------------------------------------

  /** `item.split()[1]`: the item's category, if it has a second word. */
  function Label(item: string): Option<string> {
    var w := Words(item);
    if |w| >= 2 then Some(w[1]) else None
  }

  /** `int(item.split()[0])` for an item that has a label. */
  function Count(item: string): Option<int>
    requires Label(item).Some?
  {
    ParseInt(Words(item)[0])
  }

  /**
   * An item's label and count depend only on its words, not on the whitespace around and
   * between them: the label is the second word, and the item has one exactly when it has
   * at least two words.
   */
  lemma LabelSpaced(lead: string, ws: seq<string>, seps: seq<string>, trail: string)
    requires |ws| >= 1 && |seps| == |ws| - 1
    requires forall k :: 0 <= k < |ws| ==> |ws[k]| > 0 && NoSpace(ws[k])
    requires forall k :: 0 <= k < |seps| ==> |seps[k]| > 0 && AllSpace(seps[k])
    requires AllSpace(lead) && AllSpace(trail)
    ensures var item := lead + Spaced(ws, seps) + trail;
      (Label(item).Some? <==> |ws| >= 2) &&
      (|ws| >= 2 ==> Label(item) == Some(ws[1]) && Count(item) == ParseInt(ws[0]))
  {
    WordsSpaced(lead, ws, seps, trail);
  }

  /** An item made only of whitespace has no label. */
  lemma LabelBlank(item: string)
    requires AllSpace(item)
    ensures Label(item).None?
  {
    WordsBlank(item);
  }

  predicate ItemsLabelled(items: seq<string>) {
    forall k :: 0 <= k < |items| ==> Label(items[k]).Some?
  }

  /** Every item of every record has a label: line 40 raises no `IndexError`. */
  predicate Labelled(data: seq<Record>) {
    forall i :: 0 <= i < |data| ==> ItemsLabelled(data[i].objects)
  }

  /** Every item of every record has an integer count. */
  predicate Counted(data: seq<Record>)
    requires Labelled(data)
  {
    forall i, k :: 0 <= i < |data| && 0 <= k < |data[i].objects| ==> Count(data[i].objects[k]).Some?
  }

  /** `[obj.split()[1] for obj in x]` for the items of one record. */
  function LabelsOf(items: seq<string>): seq<string>
    requires ItemsLabelled(items)
    decreases |items|
  {
    if |items| == 0 then []
    else LabelsOf(items[..|items| - 1]) + [Label(items[|items| - 1]).value]
  }

  /** `all_objects`: the labels of all records, concatenated in order (the `sum(..., [])` at line 40). */
  function AllLabels(data: seq<Record>): seq<string>
    requires Labelled(data)
    decreases |data|
  {
    if |data| == 0 then []
    else AllLabels(data[..|data| - 1]) + LabelsOf(data[|data| - 1].objects)
  }

  /** `set(all_objects)`: the category columns. */
  function Categories(data: seq<Record>): set<string>
    requires Labelled(data)
  {
    set l | l in AllLabels(data)
  }

  /** One term of the sum at line 44: the item's count if its label is `c`, else 0; `int()` runs only on a match. */
  function Term(item: string, c: string): Option<int>
    requires Label(item).Some?
  {
    if Label(item).value == c then Count(item) else Some(0)
  }

  /** The cell of a record's column `c`: the sum of its terms, or nothing if one of them raises. */
  function Cell(items: seq<string>, c: string): Option<int>
    requires ItemsLabelled(items)
    decreases |items|
  {
    if |items| == 0 then Some(0) else Plus(Cell(items[..|items| - 1], c), Term(items[|items| - 1], c))
  }

  /** The sum of two partial sums, failing if either failed. */
  function Plus(x: Option<int>, y: Option<int>): Option<int> {
    if x.Some? && y.Some? then Some(x.value + y.value) else None
  }

  /** Every cell of every category column can be computed. */
  predicate CellsDefined(data: seq<Record>, cats: set<string>)
    requires Labelled(data)
  {
    forall i, c :: 0 <= i < |data| && c in cats ==> Cell(data[i].objects, c).Some?
  }

  /** The finished row of one record: `Objects` dropped, `Object Count` and the category cells added. */
  function RowOf(r: Record, cats: set<string>): Row
    requires ItemsLabelled(r.objects) && forall c :: c in cats ==> Cell(r.objects, c).Some?
  {
    Row(r.filename, |r.objects|, map c | c in cats :: Cell(r.objects, c).value)
  }

  /** What lines 35-46 leave in `df`, or the error that stops them. */
  function Report(data: seq<Record>): Result<Table, Error> {
    if |data| == 0 then Err(NoRecords)
    else if !Labelled(data) then Err(LabelMissing)
    else
      var cats := Categories(data);
      if !CellsDefined(data, cats) then Err(CountNotInteger)
      else Ok(Table(cats, seq(|data|, i requires 0 <= i < |data| => RowOf(data[i], cats))))
  }

  // ---------------------------------------------------------------------------
  // What the columns and cells are
  // ---------------------------------------------------------------------------

  /** The labels of a record are its items' second words, one per item, in order. */
  lemma {:induction false} LabelsOfAre(items: seq<string>)
    requires ItemsLabelled(items)
    ensures |LabelsOf(items)| == |items|
    ensures forall k :: 0 <= k < |items| ==> LabelsOf(items)[k] == Label(items[k]).value
    decreases |items|
  {
    if |items| > 0 {
      LabelsOfAre(items[..|items| - 1]);
    }
  }

  /** Some item of some record carries the label `l`. */
  predicate Carries(data: seq<Record>, l: string) {
    exists i, k :: 0 <= i < |data| && 0 <= k < |data[i].objects| && Label(data[i].objects[k]) == Some(l)
  }

  /** Some item of `items` carries the label `l`. */
  predicate ItemsCarry(items: seq<string>, l: string) {
    exists k :: 0 <= k < |items| && Label(items[k]) == Some(l)
  }

  lemma CarriesLast(data: seq<Record>, l: string)
    requires |data| > 0
    ensures Carries(data, l) <==> (Carries(data[..|data| - 1], l) || ItemsCarry(data[|data| - 1].objects, l))
  {
    var n := |data| - 1;
    var front := data[..n];
    if Carries(data, l) {
      var i, k :| 0 <= i < |data| && 0 <= k < |data[i].objects| && Label(data[i].objects[k]) == Some(l);
      if i < n { assert front[i] == data[i]; }
    }
    if Carries(front, l) {
      var i, k :| 0 <= i < |front| && 0 <= k < |front[i].objects| && Label(front[i].objects[k]) == Some(l);
      assert data[i] == front[i];
    }
  }

  /** A label occurs in `all_objects` exactly when some item of some record carries it. */
  lemma {:induction false} AllLabelsHas(data: seq<Record>, l: string)
    requires Labelled(data)
    ensures l in AllLabels(data) <==> Carries(data, l)
    decreases |data|
  {
    if |data| > 0 {
      var n := |data| - 1;
      var items := data[n].objects;
      assert Labelled(data[..n]) by {
        forall i | 0 <= i < n ensures ItemsLabelled(data[..n][i].objects) { assert data[..n][i] == data[i]; }
      }
      AllLabelsHas(data[..n], l);
      LabelsOfAre(items);
      CarriesLast(data, l);
      if l in LabelsOf(items) {
        var k :| 0 <= k < |LabelsOf(items)| && LabelsOf(items)[k] == l;
        assert Label(items[k]) == Some(l);
      }
      if ItemsCarry(items, l) {
        var k :| 0 <= k < |items| && Label(items[k]) == Some(l);
        assert LabelsOf(items)[k] == l;
      }
    }
  }

  /** The category columns are exactly the labels carried by some item of some record. */
  lemma CategoriesAreLabels(data: seq<Record>)
    requires Labelled(data)
    ensures forall l :: l in Categories(data) <==> Carries(data, l)
  {
    forall l ensures l in Categories(data) <==> Carries(data, l) {
      AllLabelsHas(data, l);
    }
  }

  /** A cell can be computed exactly when every item carrying its label has an integer count. */
  lemma {:induction false} CellDefined(items: seq<string>, c: string)
    requires ItemsLabelled(items)
    ensures Cell(items, c).Some? <==> forall k :: 0 <= k < |items| && Label(items[k]).value == c ==> Count(items[k]).Some?
    decreases |items|
  {
    if |items| > 0 {
      var n := |items| - 1;
      CellDefined(items[..n], c);
      assert forall k :: 0 <= k < n ==> items[..n][k] == items[k];
    }
  }

  lemma LabelledAppend(a: seq<string>, b: seq<string>)
    requires ItemsLabelled(a) && ItemsLabelled(b)
    ensures ItemsLabelled(a + b)
  {
    forall k | 0 <= k < |a + b| ensures Label((a + b)[k]).Some? {
      if k >= |a| { assert (a + b)[k] == b[k - |a|]; }
    }
  }

  /** A cell sums over the items in order: the cell of two lists of items is the sum of their cells. */
  lemma {:induction false} CellAppend(a: seq<string>, b: seq<string>, c: string)
    requires ItemsLabelled(a) && ItemsLabelled(b)
    ensures ItemsLabelled(a + b)
    ensures Cell(a + b, c) == Plus(Cell(a, c), Cell(b, c))
    decreases |b|
  {
    LabelledAppend(a, b);
    if |b| > 0 {
      var n := |b| - 1;
      var front, last := b[..n], b[n];
      assert ItemsLabelled(front) by {
        forall k | 0 <= k < n ensures front[k] == b[k] { }
      }
      CellAppend(a, front, c);
      assert b == front + [last];
      CellAppendOne(a, front, last, c);
    } else {
      assert a + b == a;
    }
  }

  /** The step of `CellAppend`: one more item at the end. */
  lemma CellAppendOne(a: seq<string>, front: seq<string>, last: string, c: string)
    requires ItemsLabelled(a) && ItemsLabelled(front) && ItemsLabelled(a + front) && Label(last).Some?
    requires ItemsLabelled(front + [last]) && ItemsLabelled(a + (front + [last]))
    requires Cell(a + front, c) == Plus(Cell(a, c), Cell(front, c))
    ensures Cell(a + (front + [last]), c) == Plus(Cell(a, c), Cell(front + [last], c))
  {
    var b, ab := front + [last], a + (front + [last]);
    assert ab[..|ab| - 1] == a + front && ab[|ab| - 1] == last;
    assert b[..|b| - 1] == front && b[|b| - 1] == last;
    PlusAssoc(Cell(a, c), Cell(front, c), Term(last, c));
  }

  lemma PlusAssoc(x: Option<int>, y: Option<int>, z: Option<int>)
    ensures Plus(Plus(x, y), z) == Plus(x, Plus(y, z))
  {
  }

  /** A record with no item of label `c` gets 0 in column `c`. */
  lemma {:induction false} CellAbsent(items: seq<string>, c: string)
    requires ItemsLabelled(items) && forall k :: 0 <= k < |items| ==> Label(items[k]).value != c
    ensures Cell(items, c) == Some(0)
    decreases |items|
  {
    if |items| > 0 {
      var n := |items| - 1;
      assert forall k :: 0 <= k < n ==> items[..n][k] == items[k];
      CellAbsent(items[..n], c);
    }
  }

  /** The cells can all be computed exactly when every item has an integer count. */
  lemma CountsParse(data: seq<Record>)
    requires Labelled(data)
    ensures CellsDefined(data, Categories(data)) <==> Counted(data)
  {
    CategoriesAreLabels(data);
    var cats := Categories(data);
    if CellsDefined(data, cats) {
      forall i, k | 0 <= i < |data| && 0 <= k < |data[i].objects| ensures Count(data[i].objects[k]).Some? {
        var c := Label(data[i].objects[k]).value;
        assert Carries(data, c);
        CellDefined(data[i].objects, c);
      }
    }
    if Counted(data) {
      forall i, c | 0 <= i < |data| && c in cats ensures Cell(data[i].objects, c).Some? {
        CellDefined(data[i].objects, c);
      }
    }
  }

  /**
   * The script fails exactly in these cases: no record at all; some item without a
   * second word; every item labelled but some count not an integer.
   */
  lemma ReportErrors(data: seq<Record>)
    ensures Report(data) == Err(NoRecords) <==> |data| == 0
    ensures Report(data) == Err(LabelMissing) <==> |data| > 0 && !Labelled(data)
    ensures Report(data) == Err(CountNotInteger) <==> |data| > 0 && Labelled(data) && !Counted(data)
    ensures Report(data).Ok? <==> |data| > 0 && Labelled(data) && Counted(data)
  {
    if |data| > 0 && Labelled(data) {
      CountsParse(data);
    }
  }

  /**
   * A finished table has one row per record, in order; each row keeps the file name, has
   * `Object Count` equal to its number of items, and a cell for exactly the category columns,
   * holding the cell of its items.
   */
  lemma ReportRows(data: seq<Record>)
    requires Report(data).Ok?
    ensures var t := Report(data).value;
      Labelled(data) && t.categories == Categories(data) && |t.rows| == |data|
    ensures var t := Report(data).value;
      forall i :: 0 <= i < |data| ==>
        t.rows[i].filename == data[i].filename && t.rows[i].objectCount == |data[i].objects| &&
        t.rows[i].cells.Keys == t.categories
    ensures var t := Report(data).value;
      forall i, c :: 0 <= i < |data| && c in t.categories ==> Cell(data[i].objects, c) == Some(t.rows[i].cells[c])
  {
  }

  // ---------------------------------------------------------------------------
  // What the cells of a row add up to
  // ---------------------------------------------------------------------------

  /** Every item has an integer count. */
  predicate ItemsCounted(items: seq<string>)
    requires ItemsLabelled(items)
  {
    forall k :: 0 <= k < |items| ==> Count(items[k]).Some?
  }

  /** The sum of the counts of all items of a record, whatever their labels. */
  function Total(items: seq<string>): int
    requires ItemsLabelled(items) && ItemsCounted(items)
    decreases |items|
  {
    if |items| == 0 then 0
    else
      var n := |items| - 1;
      assert ItemsLabelled(items[..n]) && ItemsCounted(items[..n]) by {
        forall k | 0 <= k < n ensures items[..n][k] == items[k] { }
      }
      Total(items[..n]) + Count(items[n]).value
  }

  /** No category is listed twice. */
  predicate Distinct(cs: seq<string>) {
    forall j, j' :: 0 <= j < j' < |cs| ==> cs[j] != cs[j']
  }

  /** The sum of one item's terms over the columns `cs`. */
  function TermSum(item: string, cs: seq<string>): int
    requires Label(item).Some? && Count(item).Some?
    decreases |cs|
  {
    if |cs| == 0 then 0 else TermSum(item, cs[..|cs| - 1]) + Term(item, cs[|cs| - 1]).value
  }

  /** The sum of a record's cells over the columns `cs`. */
  function ColumnSum(items: seq<string>, cs: seq<string>): int
    requires ItemsLabelled(items) && forall j :: 0 <= j < |cs| ==> Cell(items, cs[j]).Some?
    decreases |cs|
  {
    if |cs| == 0 then 0 else ColumnSum(items, cs[..|cs| - 1]) + Cell(items, cs[|cs| - 1]).value
  }

  /** The sum of the entries `cs` of a row's cells. */
  function CellSum(cells: map<string, int>, cs: seq<string>): int
    requires forall j :: 0 <= j < |cs| ==> cs[j] in cells
    decreases |cs|
  {
    if |cs| == 0 then 0 else CellSum(cells, cs[..|cs| - 1]) + cells[cs[|cs| - 1]]
  }

  /** Over columns that do not hold its label, an item contributes nothing. */
  lemma {:induction false} TermSumZero(item: string, cs: seq<string>)
    requires Label(item).Some? && Count(item).Some? && Label(item).value !in cs
    ensures TermSum(item, cs) == 0
    decreases |cs|
  {
    if |cs| > 0 {
      TermSumZero(item, cs[..|cs| - 1]);
    }
  }

  /** Over columns that hold its label once, an item contributes its count once. */
  lemma {:induction false} TermSumOne(item: string, cs: seq<string>)
    requires Label(item).Some? && Count(item).Some? && Label(item).value in cs && Distinct(cs)
    ensures TermSum(item, cs) == Count(item).value
    decreases |cs|
  {
    var n := |cs| - 1;
    var front := cs[..n];
    if cs[n] == Label(item).value {
      assert Label(item).value !in front;
      TermSumZero(item, front);
    } else {
      assert Label(item).value in front;
      TermSumOne(item, front);
    }
  }

  /** Adding one item to a record adds its terms to the sum of the record's cells. */
  lemma {:induction false} ColumnSumLast(items: seq<string>, cs: seq<string>)
    requires |items| > 0 && ItemsLabelled(items) && ItemsCounted(items)
    requires forall j :: 0 <= j < |cs| ==> Cell(items, cs[j]).Some?
    ensures ItemsLabelled(items[..|items| - 1])
    ensures forall j :: 0 <= j < |cs| ==> Cell(items[..|items| - 1], cs[j]).Some?
    ensures ColumnSum(items, cs) == ColumnSum(items[..|items| - 1], cs) + TermSum(items[|items| - 1], cs)
    decreases |cs|
  {
    var n := |items| - 1;
    var front, last := items[..n], items[n];
    assert ItemsLabelled(front) by {
      forall k | 0 <= k < n ensures front[k] == items[k] { }
    }
    if |cs| > 0 {
      ColumnSumLast(items, cs[..|cs| - 1]);
    }
  }

  /** A record without items has 0 in every column. */
  lemma {:induction false} ColumnSumNone(items: seq<string>, cs: seq<string>)
    requires |items| == 0
    ensures forall j :: 0 <= j < |cs| ==> Cell(items, cs[j]).Some?
    ensures ColumnSum(items, cs) == 0
    decreases |cs|
  {
    if |cs| > 0 {
      ColumnSumNone(items, cs[..|cs| - 1]);
    }
  }

  /**
   * The cells of a record over all its categories, each counted once, add up to the
   * sum of the counts of its items: every item's count lands in exactly one column.
   */
  lemma {:induction false} RowTotal(items: seq<string>, cs: seq<string>)
    requires ItemsLabelled(items) && ItemsCounted(items) && Distinct(cs)
    requires forall k :: 0 <= k < |items| ==> Label(items[k]).value in cs
    ensures forall j :: 0 <= j < |cs| ==> Cell(items, cs[j]).Some?
    ensures ColumnSum(items, cs) == Total(items)
    decreases |items|
  {
    forall j | 0 <= j < |cs| ensures Cell(items, cs[j]).Some? {
      CellDefined(items, cs[j]);
    }
    if |items| > 0 {
      var n := |items| - 1;
      ColumnSumLast(items, cs);
      var front := items[..n];
      assert ItemsCounted(front) && forall k :: 0 <= k < n ==> Label(front[k]).value in cs by {
        forall k | 0 <= k < n ensures front[k] == items[k] { }
      }
      RowTotal(front, cs);
      TermSumOne(items[n], cs);
    } else {
      ColumnSumNone(items, cs);
    }
  }

  /** The sum of a row's cells, taken from the map, is the sum of the record's cells. */
  lemma {:induction false} CellSumIs(items: seq<string>, cells: map<string, int>, cs: seq<string>)
    requires ItemsLabelled(items)
    requires forall j :: 0 <= j < |cs| ==> cs[j] in cells && Cell(items, cs[j]) == Some(cells[cs[j]])
    ensures CellSum(cells, cs) == ColumnSum(items, cs)
    decreases |cs|
  {
    if |cs| > 0 {
      CellSumIs(items, cells, cs[..|cs| - 1]);
    }
  }

  /**
   * In a finished table, the category cells of a row, taken over the categories in any
   * order that lists each once, add up to the sum of the counts of the record's items.
   * `Object Count` is the number of items instead, so the two differ as soon as an item
   * counts more than one object.
   */
  lemma TableTotal(data: seq<Record>, cs: seq<string>, i: nat)
    requires Report(data).Ok? && 0 <= i < |data|
    requires Distinct(cs) && forall c :: c in cs <==> c in Categories(data)
    ensures Labelled(data) && ItemsCounted(data[i].objects)
    ensures forall j :: 0 <= j < |cs| ==> cs[j] in Report(data).value.rows[i].cells
    ensures CellSum(Report(data).value.rows[i].cells, cs) == Total(data[i].objects)
  {
    ReportRows(data);
    ReportErrors(data);
    RecordTotal(data, cs, i);
    CellSumIs(data[i].objects, Report(data).value.rows[i].cells, cs);
  }

  /** `RowTotal` for one record of `data`, whose categories are among those of `data`. */
  lemma RecordTotal(data: seq<Record>, cs: seq<string>, i: nat)
    requires Labelled(data) && Counted(data) && 0 <= i < |data|
    requires Distinct(cs) && forall c :: c in cs <==> c in Categories(data)
    ensures ItemsCounted(data[i].objects)
    ensures forall j :: 0 <= j < |cs| ==> Cell(data[i].objects, cs[j]).Some?
    ensures ColumnSum(data[i].objects, cs) == Total(data[i].objects)
  {
    var items := data[i].objects;
    CategoriesAreLabels(data);
    forall k | 0 <= k < |items| ensures Label(items[k]).value in cs {
      assert ItemsCarry(items, Label(items[k]).value);
      assert Carries(data, Label(items[k]).value);
    }
    RowTotal(items, cs);
  }

  // ---------------------------------------------------------------------------
  // Lines 35-46 as the script runs them
  // ---------------------------------------------------------------------------

  /** The category cells of every row, for the columns `cats`. */
  function Columns(data: seq<Record>, cats: set<string>): (r: seq<map<string, int>>)
    requires Labelled(data) && CellsDefined(data, cats)
    ensures |r| == |data|
  {
    seq(|data|, i requires 0 <= i < |data| => map c | c in cats :: Cell(data[i].objects, c).value)
  }

  /** Adding the column `obj` to every row of `Columns(data, done)`. */
  lemma ColumnsAdd(data: seq<Record>, done: set<string>, obj: string)
    requires Labelled(data) && CellsDefined(data, done) && CellsDefined(data, {obj})
    ensures CellsDefined(data, done + {obj})
    ensures Columns(data, done + {obj}) ==
      seq(|data|, i requires 0 <= i < |data| => Columns(data, done)[i][obj := Cell(data[i].objects, obj).value])
  {
    assert CellsDefined(data, done + {obj}) by {
      forall i, c | 0 <= i < |data| && c in done + {obj} ensures Cell(data[i].objects, c).Some? {
        if c != obj { assert c in done; }
      }
    }
    var before := Columns(data, done);
    var after := Columns(data, done + {obj});
    forall i | 0 <= i < |data|
      ensures after[i] == before[i][obj := Cell(data[i].objects, obj).value]
    {
      assert after[i].Keys == before[i][obj := Cell(data[i].objects, obj).value].Keys;
    }
  }

  /**
   * The `for obj in unique_objects` loop: take the categories in whatever order the set
   * yields them and add each one's column to every row, stopping at the first cell that
   * raises.
   */
  method AddColumns(data: seq<Record>, unique: set<string>) returns (cells: Option<seq<map<string, int>>>)
    requires Labelled(data)
    ensures cells.Some? <==> CellsDefined(data, unique)
    ensures cells.Some? ==> cells.value == Columns(data, unique)
  {
    var cs: seq<map<string, int>> := seq(|data|, i => map[]);
    var todo, done := unique, {};
    assert cs == Columns(data, done);
    while todo != {}
      invariant done + todo == unique && done !! todo
      invariant CellsDefined(data, done) && cs == Columns(data, done)
      decreases |todo|
    {
      var obj :| obj in todo;
      if exists i :: 0 <= i < |data| && Cell(data[i].objects, obj).None? {
        return None;
      }
      var column := seq(|data|, i requires 0 <= i < |data| => Cell(data[i].objects, obj).value);
      ColumnsAdd(data, done, obj);
      cs := seq(|data|, i requires 0 <= i < |data| => cs[i][obj := column[i]]);
      todo, done := todo - {obj}, done + {obj};
    }
    assert done == unique;
    cells := Some(cs);
  }

  /**
   * The table-building steps of the script on `data`: the `Object Count` column, the
   * category set, and the category columns; the first failure stops it.
   */
  method Tabulate(data: seq<Record>) returns (r: Result<Table, Error>)
    ensures r == Report(data)
  {
    if |data| == 0 {
      return Err(NoRecords);
    }
    var counts := seq(|data|, i requires 0 <= i < |data| => |data[i].objects|);
    if !Labelled(data) {
      return Err(LabelMissing);
    }
    var unique := Categories(data);
    var cells := AddColumns(data, unique);
    if cells.None? {
      return Err(CountNotInteger);
    }
    var rows := seq(|data|, i requires 0 <= i < |data| => Row(data[i].filename, counts[i], cells.value[i]));
    assert rows == seq(|data|, i requires 0 <= i < |data| => RowOf(data[i], unique));
    r := Ok(Table(unique, rows));
  }

  // ---------------------------------------------------------------------------
  // From the log text to the table
  // ---------------------------------------------------------------------------

  /** What lines 16-46 compute from the text of the log. */
  function ReportOf(text: string): Result<Table, Error> {
    Report(Records(Matches(text)))
  }

  /** The script from the log text on: find the matches, build the records, then the table. */
  method Run(text: string) returns (r: Result<Table, Error>)
    ensures r == ReportOf(text)
  {
    var matches := Matches(text);
    var data := BuildRecords(matches);
    assert data == Records(matches);
    r := Tabulate(data);
  }

  /**
   * Each row of a finished table comes from the match of the same index: its file name
   * is the part of the matched path after the last '/', and its `Object Count` is the
   * number of commas in the matched object text plus one.
   */
  lemma RowsOfMatches(matches: seq<Match>)
    requires Report(Records(matches)).Ok?
    ensures |Report(Records(matches)).value.rows| == |matches|
    ensures forall i :: 0 <= i < |matches| ==>
      var row := Report(Records(matches)).value.rows[i];
      row.filename == LastComponent(matches[i].path) && '/' !in row.filename &&
      row.objectCount == Occurrences(matches[i].objects, ',') + 1
  {
    var data := Records(matches);
    ReportRows(data);
    forall i | 0 <= i < |matches|
      ensures '/' !in LastComponent(matches[i].path)
      ensures |Items(matches[i].objects)| == Occurrences(matches[i].objects, ',') + 1
    {
      LastComponentIsBasename(matches[i].path);
      ItemsCount(matches[i].objects);
    }
  }
}
