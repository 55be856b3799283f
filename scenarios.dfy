/**
 * What the model computes for whole log lines of the kind the detector writes: a line
 * with two detected categories and a line whose one item has no integer count, each
 * stated for any path, sizes, counts and one-word labels and then for one concrete line,
 * and a line whose image index has two digits (passed over by the pattern).
 */
module Scenarios {
  import opened Wrappers
  import opened Text
  import opened Pattern
  import opened Report

  // ---------------------------------------------------------------------------
  // Lines of a given shape
  // ---------------------------------------------------------------------------

  /** A category name a detector prints: one word, free of ','. */
  predicate Tag(l: string) {
    |l| > 0 && NoSpace(l) && ',' !in l
  }

  /** The item a detector prints for `n` objects of category `l`. */
  function ItemOf(n: nat, l: string): string {
    ShowNat(n) + " " + l
  }

  /** A path the lazy path group takes whole: non-empty, on one line, with no `: ` inside. */
  predicate PrintedPath(path: string) {
    |path| > 0 && '\n' !in path && NoColonSpace(path)
  }

  /** A file name without ':' or '/': a path of the form above that the model keeps as it is. */
  predicate PlainName(path: string) {
    |path| > 0 && '\n' !in path && ':' !in path && '/' !in path
  }

  lemma PlainNameKept(path: string)
    requires PlainName(path)
    ensures PrintedPath(path) && LastComponent(path) == path
  {
    LastComponentNoSlash(path);
    forall j | 0 <= j < |path| ensures !ColonSpaceAt(path, j) { assert path[j] != ':'; }
  }

  /** The line `image 1/1 <path>: <res> <objects>, <elapsed>ms`. */
  function LineOf(m: Match): string {
    "image 1/1 " + Render(m)
  }

  /** Word and strip facts of an item `count tag`. */
  lemma CleanItem(count: string, tag: string)
    requires |count| > 0 && |tag| > 0 && NoSpace(count) && NoSpace(tag)
    requires ',' !in count && ',' !in tag
    ensures Clean(count + " " + tag)
    ensures Words(count + " " + tag) == [count, tag]
  {
    var w := count + " " + tag;
    assert w[0] == count[0] && w[|w| - 1] == tag[|tag| - 1];
    StripPadded("", w, "");
    assert "" + w + "" == w;
    WordsJoin([count, tag]);
    assert Join([count, tag], ' ') == w;
  }

  /** A word holds no newline, which is whitespace. */
  lemma NoSpaceNoNewline(w: string)
    requires NoSpace(w)
    ensures '\n' !in w
  {
    assert IsSpace('\n');
    forall k | 0 <= k < |w| ensures w[k] != '\n' { assert !IsSpace(w[k]); }
  }

  /** A printed item is clean, has the printed label and count, and holds no ',' or newline. */
  lemma ItemFacts(n: nat, l: string)
    requires Tag(l)
    ensures Clean(ItemOf(n, l)) && Label(ItemOf(n, l)) == Some(l) && Count(ItemOf(n, l)) == Some(n)
    ensures ',' !in ItemOf(n, l) && '\n' !in ItemOf(n, l) && |ItemOf(n, l)| > 0
  {
    var d := ShowNat(n);
    assert NoSpace(d) && ',' !in d && '\n' !in d by {
      forall k | 0 <= k < |d| ensures IsDigit(d[k]) { }
    }
    NoSpaceNoNewline(l);
    CleanItem(d, l);
    ParseIntShowInt(n);
    assert ShowInt(n) == d;
  }

  /** Two printed items joined by ", " split back into the same two. */
  lemma PairItems(a: nat, l1: string, b: nat, l2: string)
    requires Tag(l1) && Tag(l2)
    ensures Items(ItemOf(a, l1) + ", " + ItemOf(b, l2)) == [ItemOf(a, l1), ItemOf(b, l2)]
  {
    ItemFacts(a, l1);
    ItemFacts(b, l2);
    var items := [ItemOf(a, l1), ItemOf(b, l2)];
    ItemsJoin(items);
    assert items[1..] == [ItemOf(b, l2)];
    assert JoinItems(items) == ItemOf(a, l1) + ", " + ItemOf(b, l2);
  }

  /** In two comma-free items joined by ", " the only comma is the one between them. */
  lemma OneComma(i1: string, i2: string)
    requires ',' !in i1 && ',' !in i2
    ensures forall j :: 0 <= j < |i1 + ", " + i2| && (i1 + ", " + i2)[j] == ',' ==> j == |i1|
  {
    var s := i1 + ", " + i2;
    forall j | 0 <= j < |s| && j != |i1| ensures s[j] != ',' {
      if j < |i1| {
        assert s[j] == i1[j];
      } else if j > |i1| + 1 {
        assert s[j] == i2[j - |i1| - 2];
      }
    }
  }

  /** A printed item is comma free and starts with the digits of its count, then a space. */
  lemma ItemShape(n: nat, l: string)
    requires Tag(l)
    ensures ',' !in ItemOf(n, l) && |ShowNat(n)| < |ItemOf(n, l)| && ItemOf(n, l)[|ShowNat(n)|] == ' '
    ensures forall k :: 0 <= k < |ShowNat(n)| ==> IsDigit(ItemOf(n, l)[k])
  {
    var d := ShowNat(n);
    assert ',' !in d by {
      forall k | 0 <= k < |d| ensures IsDigit(d[k]) { }
    }
    forall k | 0 <= k < |d| ensures IsDigit(ItemOf(n, l)[k]) { assert ItemOf(n, l)[k] == d[k]; }
  }

  /** Text whose one comma, at `c`, is followed by a space and a count ended by a space holds no terminator. */
  lemma CountAfterComma(s: string, c: nat, d: nat)
    requires forall j :: 0 <= j < |s| && s[j] == ',' ==> j == c
    requires c + 2 + d < |s| && DigitsEnd(s, c + 2) == c + 2 + d && s[c + 2 + d] == ' '
    ensures NoTerminator(s)
  {
  }

  /** Two printed items joined by ", " hold no terminator: their one comma is followed by a count and a space. */
  lemma PairNoTerminator(a: nat, l1: string, b: nat, l2: string)
    requires Tag(l1) && Tag(l2)
    ensures NoTerminator(ItemOf(a, l1) + ", " + ItemOf(b, l2))
  {
    ItemShape(a, l1);
    ItemShape(b, l2);
    var i1, i2, d := ItemOf(a, l1), ItemOf(b, l2), |ShowNat(b)|;
    OneComma(i1, i2);
    var s := i1 + ", " + i2;
    var c := |i1| + 2 + d;
    forall j | |i1| + 2 <= j < c ensures IsDigit(s[j]) {
      assert s[j] == i2[j - |i1| - 2];
    }
    assert s[c] == i2[d];
    DigitsEndIs(s, |i1| + 2, c);
    CountAfterComma(s, |i1|, d);
  }

  /** Text without a comma holds no terminator. */
  lemma CommaFreeNoTerminator(s: string)
    requires ',' !in s
    ensures NoTerminator(s)
  {
    forall k | 0 < k < |s| ensures TerminatorEnd(s, k).None? {
      assert s[k] != ',';
    }
  }

  /** A line holding one instance of the pattern gives exactly that match. */
  lemma LineMatches(m: Match)
    requires WellFormed(m) && NoColonSpace(m.path) && NoTerminator(m.objects)
    ensures Matches(LineOf(m)) == [m]
  {
    var t := LineOf(m);
    assert HeaderAt(t, 0);
    assert t[10..10 + |Render(m)|] == Render(m);
    var e := MatchAtExact(t, 0, m);
    assert FindAll(t, 0) == [m] + FindAll(t, e);
  }

  /** The labels and cells of a record with two items of different labels. */
  lemma TwoItemCells(filename: string, i1: string, i2: string, l1: string, l2: string, a: int, b: int)
    requires Label(i1) == Some(l1) && Label(i2) == Some(l2) && l1 != l2
    requires Count(i1) == Some(a) && Count(i2) == Some(b)
    ensures Labelled([Record(filename, [i1, i2])])
    ensures Categories([Record(filename, [i1, i2])]) == {l1, l2}
    ensures Cell([i1, i2], l1) == Some(a) && Cell([i1, i2], l2) == Some(b)
  {
    var items := [i1, i2];
    var data := [Record(filename, items)];
    var front := items[..1];
    assert front == [i1] && front[..0] == [] && items[1] == i2;
    assert ItemsLabelled(front) && ItemsLabelled(items);
    assert Labelled(data) && data[..0] == [] && data[0].objects == items;
    assert LabelsOf(front) == [l1];
    assert LabelsOf(items) == [l1, l2];
    assert AllLabels(data) == [l1, l2];
    assert Term(i1, l1) == Some(a) && Term(i1, l2) == Some(0);
    assert Term(i2, l1) == Some(0) && Term(i2, l2) == Some(b);
    assert Cell(front[..0], l1) == Some(0) && Cell(front[..0], l2) == Some(0);
    assert Cell(front, l1) == Some(a) && Cell(front, l2) == Some(0);
  }

  /** One record with two items of different labels: the table has those two columns. */
  lemma TwoItemReport(filename: string, i1: string, i2: string, l1: string, l2: string, a: int, b: int)
    requires Label(i1) == Some(l1) && Label(i2) == Some(l2) && l1 != l2
    requires Count(i1) == Some(a) && Count(i2) == Some(b)
    ensures Report.Report([Record(filename, [i1, i2])]) == Ok(Table({l1, l2}, [Row(filename, 2, map[l1 := a, l2 := b])]))
  {
    TwoItemCells(filename, i1, i2, l1, l2, a, b);
    var data := [Record(filename, [i1, i2])];
    var cats: set<string> := {l1, l2};
    assert CellsDefined(data, cats);
    var row := RowOf(data[0], cats);
    assert row.cells == map[l1 := a, l2 := b];
    assert seq(|data|, i requires 0 <= i < |data| => RowOf(data[i], cats)) == [row];
  }

  /**
   * `image 1/1 <path>: <res> <a> <l1>, <b> <l2>, <elapsed>ms` gives one row: the last
   * component of the path, `Object Count` 2, and the cells `a` and `b` under the two labels.
   */
  lemma TwoCategoryLine(path: string, res: string, el: string, a: nat, l1: string, b: nat, l2: string)
    requires PrintedPath(path) && DigitsAround(res, 'x') && DigitsAround(el, '.')
    requires Tag(l1) && Tag(l2) && l1 != l2
    ensures var m := Match(path, res, ItemOf(a, l1) + ", " + ItemOf(b, l2), el);
      ReportOf(LineOf(m)) == Ok(Table({l1, l2}, [Row(LastComponent(path), 2, map[l1 := a, l2 := b])]))
  {
    var objects := ItemOf(a, l1) + ", " + ItemOf(b, l2);
    var m := Match(path, res, objects, el);
    ItemFacts(a, l1);
    ItemFacts(b, l2);
    assert '\n' !in objects;
    PairNoTerminator(a, l1, b, l2);
    LineMatches(m);
    PairItems(a, l1, b, l2);
    assert Records([m]) == [Record(LastComponent(path), [ItemOf(a, l1), ItemOf(b, l2)])];
    TwoItemReport(LastComponent(path), ItemOf(a, l1), ItemOf(b, l2), l1, l2, a, b);
  }

  /**
   * `image 1/1 <path>: <res> <w1> <w2>, <elapsed>ms` where `int(w1)` fails, as for the
   * detector's `(no detections)`: the script stops at line 44.
   */
  lemma UncountedLine(path: string, res: string, el: string, w1: string, w2: string)
    requires PrintedPath(path) && DigitsAround(res, 'x') && DigitsAround(el, '.')
    requires Tag(w1) && Tag(w2) && ParseInt(w1).None?
    ensures ReportOf(LineOf(Match(path, res, w1 + " " + w2, el))) == Err(CountNotInteger)
  {
    var item := w1 + " " + w2;
    var m := Match(path, res, item, el);
    CleanItem(w1, w2);
    NoSpaceNoNewline(w1);
    NoSpaceNoNewline(w2);
    assert ',' !in item && '\n' !in item;
    CommaFreeNoTerminator(item);
    LineMatches(m);
    ItemsJoin([item]);
    var data := [Record(LastComponent(path), [item])];
    assert Records([m]) == data;
    assert ItemsLabelled([item]) && Labelled(data);
    assert Count(item).None? && data[0].objects[0] == item;
    assert !Counted(data);
    ReportErrors(data);
  }

  // ---------------------------------------------------------------------------
  // Concrete lines
  // ---------------------------------------------------------------------------

  lemma ResolutionShape()
    ensures DigitsAround("640x480", 'x')
  {
    var s := "640x480";
    assert DigitsEnd(s, 3) == 3;
    assert DigitsEnd(s, 2) == 3;
    assert DigitsEnd(s, 1) == 3;
    assert DigitsEnd(s, 0) == 3;
    assert DigitsEnd(s, 7) == 7;
    assert DigitsEnd(s, 6) == 7;
    assert DigitsEnd(s, 5) == 7;
    assert DigitsEnd(s, 4) == 7;
  }

  lemma ElapsedShape()
    ensures DigitsAround("12.3", '.') && DigitsAround("5.0", '.')
  {
    var s := "12.3";
    assert DigitsEnd(s, 2) == 2;
    assert DigitsEnd(s, 1) == 2;
    assert DigitsEnd(s, 0) == 2;
    assert DigitsEnd(s, 4) == 4;
    assert DigitsEnd(s, 3) == 4;
    var u := "5.0";
    assert DigitsEnd(u, 1) == 1;
    assert DigitsEnd(u, 0) == 1;
    assert DigitsEnd(u, 3) == 3;
    assert DigitsEnd(u, 2) == 3;
  }

  /** The detector's text for two people and a car. */
  lemma DetectedObjects()
    ensures ItemOf(2, "person") + ", " + ItemOf(1, "car") == "2 person, 1 car"
  {
    assert ShowNat(2) == "2" && ShowNat(1) == "1";
  }

  /** `image 1/1 foo.jpg: 640x480 2 person, 1 car, 12.3ms`. */
  const DetectedLine := LineOf(Match("foo.jpg", "640x480", "2 person, 1 car", "12.3"))

  const DetectedTable := Table({"person", "car"}, [Row("foo.jpg", 2, map["person" := 2, "car" := 1])])

  lemma DetectedNames()
    ensures Tag("person") && Tag("car") && PlainName("foo.jpg")
  {
  }

  /** The table for one line with two people and a car. */
  lemma DetectedReport()
    ensures ReportOf(DetectedLine) == Ok(DetectedTable)
  {
    ResolutionShape();
    ElapsedShape();
    DetectedNames();
    PlainNameKept("foo.jpg");
    TwoCategoryLine("foo.jpg", "640x480", "12.3", 2, "person", 1, "car");
    DetectedObjects();
  }

  /**
   * `Object Count` counts the items, not the objects: the row for the line says 2 while
   * its category cells add up to 3.
   */
  lemma ObjectCountIsNotTotal()
    ensures ReportOf(DetectedLine).Ok? && |ReportOf(DetectedLine).value.rows| == 1
    ensures var row := ReportOf(DetectedLine).value.rows[0];
      row.objectCount == 2 && "person" in row.cells && "car" in row.cells &&
      row.cells["person"] + row.cells["car"] == 3
  {
    DetectedReport();
  }

  /**
   * `image 1/1 a.jpg: 640x480 (no detections), 5.0ms`. The object text is written as its
   * two words so that the proof can take them apart without reading the literal character
   * by character.
   */
  const EmptyLine := LineOf(Match("a.jpg", "640x480", "(no" + " " + "detections)", "5.0"))

  lemma EmptyNames()
    ensures Tag("(no") && Tag("detections)") && PlainName("a.jpg") && ParseInt("(no").None?
  {
  }

  /** A line without detections: the item `(no detections)` has no integer count. */
  lemma EmptyReport()
    ensures ReportOf(EmptyLine) == Err(CountNotInteger)
  {
    ResolutionShape();
    ElapsedShape();
    EmptyNames();
    PlainNameKept("a.jpg");
    UncountedLine("a.jpg", "640x480", "5.0", "(no", "detections)");
  }

  /**
   * `image 10/12 a.png: 1x1 1 cat, 1.0ms`, written as its first character and the rest so
   * that the proof can show the rest holds no 'i' and so no header starts in it.
   */
  const TwoDigitLine := "i" + "mage 10/12 a.png: 1x1 1 cat, 1.0ms"

  /** The index fragment takes one digit on each side of '/': the line gives no record. */
  lemma TwoDigitReport()
    ensures Matches(TwoDigitLine) == []
    ensures ReportOf(TwoDigitLine) == Err(NoRecords)
  {
    var t := TwoDigitLine;
    var rest := "mage 10/12 a.png: 1x1 1 cat, 1.0ms";
    assert 'i' !in rest;
    forall s | 0 <= s <= |t| ensures !HeaderAt(t, s) {
      if 0 < s < |t| {
        assert t[s] == rest[s - 1];
      }
    }
    NoHeaderNoMatch(t, 0);
  }
}
