/**
 * The Python string operations the report script relies on, written out over `string`:
 * `str.split(sep)`, `str.strip()`, `str.split()` (no argument), `int(str)` and the
 * `path.split('/')[-1]` idiom. Whitespace is the set of code points that Python's
 * `str.isspace` accepts; digits are the ASCII digits.
 */
module Text {
  import opened Wrappers

  /** Python's `str.isspace` for one code point. */
  predicate IsSpace(c: char) {
    var n := c as int;
    (9 <= n <= 13) || (28 <= n <= 32) || n == 0x85 || n == 0xA0 || n == 0x1680 ||
    (0x2000 <= n <= 0x200A) || n == 0x2028 || n == 0x2029 || n == 0x202F || n == 0x205F || n == 0x3000
  }

  predicate IsDigit(c: char) {
    '0' <= c <= '9'
  }

  predicate AllSpace(s: string) {
    forall k :: 0 <= k < |s| ==> IsSpace(s[k])
  }

  predicate NoSpace(s: string) {
    forall k :: 0 <= k < |s| ==> !IsSpace(s[k])
  }

  predicate AllDigits(s: string) {
    forall k :: 0 <= k < |s| ==> IsDigit(s[k])
  }

  /** Number of occurrences of `c` in `s`. */
  function Occurrences(s: string, c: char): nat {
    multiset(s)[c]
  }

  // ---------------------------------------------------------------------------
  // str.split(sep) and its inverse, sep.join(pieces)
  // ---------------------------------------------------------------------------

  /** Python's `s.split(c)` for a one-character separator: never empty, empty pieces kept. */
  function SplitOn(s: string, c: char): (r: seq<string>)
    ensures |r| >= 1
    decreases |s|
  {
    if |s| == 0 then [""]
    else
      var rest := SplitOn(s[1..], c);
      if s[0] == c then [""] + rest else [[s[0]] + rest[0]] + rest[1..]
  }

  /** Python's `c.join(pieces)`. */
  function Join(pieces: seq<string>, c: char): string
    requires |pieces| >= 1
    decreases |pieces|
  {
    if |pieces| == 1 then pieces[0] else pieces[0] + [c] + Join(pieces[1..], c)
  }

  /** No piece of a split holds the separator, and there is one piece more than separators. */
  lemma {:induction false} SplitOnPieces(s: string, c: char)
    ensures forall k :: 0 <= k < |SplitOn(s, c)| ==> c !in SplitOn(s, c)[k]
    ensures |SplitOn(s, c)| == Occurrences(s, c) + 1
    decreases |s|
  {
    if |s| > 0 {
      SplitOnPieces(s[1..], c);
      assert s == [s[0]] + s[1..];
      assert multiset(s) == multiset([s[0]]) + multiset(s[1..]);
    }
  }

  /** Joining the pieces of a split gives back the text. */
  lemma {:induction false} JoinSplitOn(s: string, c: char)
    ensures Join(SplitOn(s, c), c) == s
    decreases |s|
  {
    if |s| > 0 {
      JoinSplitOn(s[1..], c);
      var rest := SplitOn(s[1..], c);
      if s[0] == c {
        assert SplitOn(s, c)[1..] == rest;
      } else {
        var r := SplitOn(s, c);
        if |rest| == 1 {
          assert r == [[s[0]] + rest[0]];
        } else {
          assert r[1..] == rest[1..];
          assert Join(rest, c) == rest[0] + [c] + Join(rest[1..], c);
        }
      }
    }
  }

  /** A text without the separator splits into itself alone. */
  lemma {:induction false} SplitOnNone(s: string, c: char)
    requires c !in s
    ensures SplitOn(s, c) == [s]
    decreases |s|
  {
    if |s| > 0 {
      assert c !in s[1..] by {
        forall k | 0 <= k < |s[1..]| ensures s[1..][k] != c { assert s[1..][k] == s[k + 1]; }
      }
      SplitOnNone(s[1..], c);
      assert [s[0]] + s[1..] == s;
    }
  }

  /** Splitting at a first separator: the piece before it, then the split of what follows. */
  lemma {:induction false} SplitOnFirst(x: string, c: char, y: string)
    requires c !in x
    ensures SplitOn(x + [c] + y, c) == [x] + SplitOn(y, c)
    decreases |x|
  {
    var s := x + [c] + y;
    if |x| == 0 {
      assert s[1..] == y;
    } else {
      assert s[1..] == x[1..] + [c] + y;
      assert c !in x[1..] by {
        forall k | 0 <= k < |x[1..]| ensures x[1..][k] != c { assert x[1..][k] == x[k + 1]; }
      }
      SplitOnFirst(x[1..], c, y);
      assert [x[0]] + x[1..] == x;
    }
  }

  /** The other round trip: splitting a join gives back separator-free pieces. */
  lemma {:induction false} SplitOnJoin(pieces: seq<string>, c: char)
    requires |pieces| >= 1
    requires forall k :: 0 <= k < |pieces| ==> c !in pieces[k]
    ensures SplitOn(Join(pieces, c), c) == pieces
    decreases |pieces|
  {
    if |pieces| == 1 {
      SplitOnNone(pieces[0], c);
    } else {
      SplitOnJoin(pieces[1..], c);
      SplitOnFirst(pieces[0], c, Join(pieces[1..], c));
      assert [pieces[0]] + pieces[1..] == pieces;
    }
  }

  // ---------------------------------------------------------------------------
  // path.split('/')[-1]
  // ---------------------------------------------------------------------------

  /** `path.split('/')[-1]`: the last '/'-separated component. */
  function LastComponent(path: string): string {
    var parts := SplitOn(path, '/');
    parts[|parts| - 1]
  }

  /** The last piece of a split is the longest suffix free of the separator. */
  lemma {:induction false} LastPiece(s: string, c: char)
    ensures var r := SplitOn(s, c)[|SplitOn(s, c)| - 1];
      |r| <= |s| && r == s[|s| - |r|..] && c !in r && (|r| < |s| ==> s[|s| - |r| - 1] == c)
    decreases |s|
  {
    SplitOnPieces(s, c);
    if |s| > 0 {
      LastPiece(s[1..], c);
      var rest := SplitOn(s[1..], c);
      if s[0] != c && |rest| == 1 {
        JoinSplitOn(s[1..], c);
        assert SplitOn(s, c) == [[s[0]] + s[1..]];
        assert [s[0]] + s[1..] == s;
      }
    }
  }

  /**
   * The stored filename is the part of the path after its last '/': it holds no '/',
   * the path ends with it, and the character before it (if any) is '/'.
   */
  lemma LastComponentIsBasename(path: string)
    ensures var r := LastComponent(path);
      '/' !in r && |r| <= |path| && path == path[..|path| - |r|] + r &&
      (|r| < |path| ==> path[|path| - |r| - 1] == '/')
  {
    LastPiece(path, '/');
  }

  /** A path without '/' is kept as it is. */
  lemma LastComponentNoSlash(path: string)
    requires '/' !in path
    ensures LastComponent(path) == path
  {
    SplitOnNone(path, '/');
  }

  // ---------------------------------------------------------------------------
  // Whitespace runs, str.strip()
  // ---------------------------------------------------------------------------

  /** The end of the run, starting at `i`, of characters that are whitespace exactly when `space` holds. */
  function SpanEnd(s: string, i: nat, space: bool): (j: nat)
    requires i <= |s|
    ensures i <= j <= |s| && (j < |s| ==> IsSpace(s[j]) != space)
    ensures i < |s| && IsSpace(s[i]) == space ==> i < j
    decreases |s| - i
  {
    if i < |s| && IsSpace(s[i]) == space then SpanEnd(s, i + 1, space) else i
  }

  /** Every character the run covers is of its kind. */
  lemma {:induction false} SpanEndCovers(s: string, i: nat, space: bool)
    requires i <= |s|
    ensures forall k :: i <= k < SpanEnd(s, i, space) ==> IsSpace(s[k]) == space
    decreases |s| - i
  {
    if i < |s| && IsSpace(s[i]) == space { SpanEndCovers(s, i + 1, space); }
  }

  /** A run is determined by where it stops. */
  lemma {:induction false} SpanEndIs(s: string, i: nat, j: nat, space: bool)
    requires i <= j <= |s| && (forall k :: i <= k < j ==> IsSpace(s[k]) == space)
    requires j < |s| ==> IsSpace(s[j]) != space
    ensures SpanEnd(s, i, space) == j
    decreases j - i
  {
    if i < j { SpanEndIs(s, i + 1, j, space); }
  }

  /** Walking back from `j`, but not below `lo`, over trailing whitespace. */
  function TrailingStart(s: string, lo: nat, j: nat): (r: nat)
    requires lo <= j <= |s|
    ensures lo <= r <= j && (r > lo ==> !IsSpace(s[r - 1]))
    decreases j
  {
    if j > lo && IsSpace(s[j - 1]) then TrailingStart(s, lo, j - 1) else j
  }

  lemma {:induction false} TrailingStartCovers(s: string, lo: nat, j: nat)
    requires lo <= j <= |s|
    ensures forall k :: TrailingStart(s, lo, j) <= k < j ==> IsSpace(s[k])
    decreases j
  {
    if j > lo && IsSpace(s[j - 1]) { TrailingStartCovers(s, lo, j - 1); }
  }

  lemma {:induction false} TrailingStartIs(s: string, lo: nat, r: nat, j: nat)
    requires lo <= r <= j <= |s| && (forall k :: r <= k < j ==> IsSpace(s[k])) && (r > lo ==> !IsSpace(s[r - 1]))
    ensures TrailingStart(s, lo, j) == r
    decreases j
  {
    if r < j { TrailingStartIs(s, lo, r, j - 1); }
  }

  /** Python's `s.strip()`: skip whitespace from the left, then from the right down to where the left scan stopped. */
  function Strip(s: string): string {
    var i := SpanEnd(s, 0, true);
    s[i..TrailingStart(s, i, |s|)]
  }

  /**
   * `strip()` cuts only whitespace, from both ends, and what it keeps neither starts nor
   * ends with whitespace: it is the slice `s[i..j]` for the least `i` and greatest `j` so placed.
   */
  lemma StripBounds(s: string) returns (i: nat, j: nat)
    ensures i <= j <= |s| && Strip(s) == s[i..j]
    ensures forall k :: 0 <= k < i ==> IsSpace(s[k])
    ensures forall k :: j <= k < |s| ==> IsSpace(s[k])
    ensures i < j ==> !IsSpace(s[i]) && !IsSpace(s[j - 1])
  {
    i := SpanEnd(s, 0, true);
    j := TrailingStart(s, i, |s|);
    SpanEndCovers(s, 0, true);
    TrailingStartCovers(s, i, |s|);
  }

  /** `strip()` gives the empty string exactly on all-whitespace text. */
  lemma StripEmpty(s: string)
    ensures Strip(s) == "" <==> AllSpace(s)
  {
    var i, j := StripBounds(s);
    if i < j { assert !IsSpace(s[i]); }
    if i == j {
      forall k | 0 <= k < |s| ensures IsSpace(s[k]) {
        if i <= k { assert j <= k; }
      }
    }
  }

  /** Surrounding whitespace is exactly what `strip()` removes. */
  lemma StripPadded(lead: string, w: string, trail: string)
    requires AllSpace(lead) && AllSpace(trail) && (|w| > 0 ==> !IsSpace(w[0]) && !IsSpace(w[|w| - 1]))
    ensures Strip(lead + w + trail) == w
  {
    var s := lead + w + trail;
    var i := |lead|;
    var j := |lead| + |w|;
    forall k | 0 <= k < |s| ensures s[k] == if k < i then lead[k] else if k < j then w[k - i] else trail[k - j] {
    }
    if |w| == 0 {
      SpanEndIs(s, 0, |s|, true);
      TrailingStartIs(s, |s|, |s|, |s|);
    } else {
      SpanEndIs(s, 0, i, true);
      TrailingStartIs(s, i, j, |s|);
      assert s[i..j] == w;
    }
  }

  /** Stripping twice is stripping once. */
  lemma StripIdempotent(s: string)
    ensures Strip(Strip(s)) == Strip(s)
  {
    var r := Strip(s);
    assert |r| > 0 ==> !IsSpace(r[0]) && !IsSpace(r[|r| - 1]) by {
      var i, j := StripBounds(s);
      if i < j { assert r[0] == s[i] && r[|r| - 1] == s[j - 1]; }
    }
    StripPadded("", r, "");
    assert "" + r + "" == r;
  }

  // ---------------------------------------------------------------------------
  // str.split() with no argument
  // ---------------------------------------------------------------------------

  /** Python's `s.split()` from position `i`: skip whitespace, take the run of non-whitespace, repeat. */
  function WordsFrom(s: string, i: nat): seq<string>
    requires i <= |s|
    decreases |s| - i
  {
    var a := SpanEnd(s, i, true);
    if a == |s| then []
    else
      var b := SpanEnd(s, a, false);
      [s[a..b]] + WordsFrom(s, b)
  }

  /** Python's `s.split()`: the maximal runs of non-whitespace characters, in order. */
  function Words(s: string): seq<string> {
    WordsFrom(s, 0)
  }

  /** Every word is non-empty and holds no whitespace. */
  lemma {:induction false} WordsFromShape(s: string, i: nat)
    requires i <= |s|
    ensures forall k :: 0 <= k < |WordsFrom(s, i)| ==> |WordsFrom(s, i)[k]| > 0 && NoSpace(WordsFrom(s, i)[k])
    decreases |s| - i
  {
    var a := SpanEnd(s, i, true);
    if a < |s| {
      var b := SpanEnd(s, a, false);
      SpanEndCovers(s, a, false);
      var w := s[a..b];
      assert NoSpace(w) by {
        forall k | 0 <= k < |w| ensures !IsSpace(w[k]) { assert w[k] == s[a + k]; }
      }
      WordsFromShape(s, b);
    }
  }

  lemma WordsShape(s: string)
    ensures forall k :: 0 <= k < |Words(s)| ==> |Words(s)[k]| > 0 && NoSpace(Words(s)[k])
  {
    WordsFromShape(s, 0);
  }

  /** The non-whitespace characters of `s` from `i` on, in order. */
  function NonSpaceFrom(s: string, i: nat): string
    requires i <= |s|
    decreases |s| - i
  {
    if i == |s| then "" else (if IsSpace(s[i]) then "" else [s[i]]) + NonSpaceFrom(s, i + 1)
  }

  function Concat(words: seq<string>): string
    decreases |words|
  {
    if |words| == 0 then "" else words[0] + Concat(words[1..])
  }

  /** Skipping whitespace loses no non-whitespace character. */
  lemma {:induction false} NonSpaceSkip(s: string, i: nat, j: nat)
    requires i <= j <= |s| && forall k :: i <= k < j ==> IsSpace(s[k])
    ensures NonSpaceFrom(s, i) == NonSpaceFrom(s, j)
    decreases j - i
  {
    if i < j {
      assert IsSpace(s[i]);
      NonSpaceSkip(s, i + 1, j);
    }
  }

  /** A run of non-whitespace characters is kept whole. */
  lemma {:induction false} NonSpaceRun(s: string, i: nat, j: nat)
    requires i <= j <= |s| && forall k :: i <= k < j ==> !IsSpace(s[k])
    ensures NonSpaceFrom(s, i) == s[i..j] + NonSpaceFrom(s, j)
    decreases j - i
  {
    if i < j {
      NonSpaceRun(s, i + 1, j);
      var run, rest := s[i + 1..j], NonSpaceFrom(s, j);
      assert NonSpaceFrom(s, i) == [s[i]] + (run + rest) by { assert !IsSpace(s[i]); }
      assert s[i..j] == [s[i]] + run;
      assert [s[i]] + (run + rest) == ([s[i]] + run) + rest;
    }
  }

  lemma {:induction false} WordsFromCover(s: string, i: nat)
    requires i <= |s|
    ensures Concat(WordsFrom(s, i)) == NonSpaceFrom(s, i)
    decreases |s| - i
  {
    var a := SpanEnd(s, i, true);
    SpanEndCovers(s, i, true);
    NonSpaceSkip(s, i, a);
    if a < |s| {
      var b := SpanEnd(s, a, false);
      SpanEndCovers(s, a, false);
      NonSpaceRun(s, a, b);
      WordsFromCover(s, b);
      var ws := WordsFrom(s, i);
      assert ws == [s[a..b]] + WordsFrom(s, b);
      assert ws[1..] == WordsFrom(s, b);
    }
  }

  /** The words of `s`, run together, are exactly the non-whitespace characters of `s`. */
  lemma WordsCoverText(s: string)
    ensures Concat(Words(s)) == NonSpaceFrom(s, 0)
  {
    WordsFromCover(s, 0);
  }

  /** Whitespace at `i` is skipped. */
  lemma WordsFromSpace(s: string, i: nat)
    requires i < |s| && IsSpace(s[i])
    ensures WordsFrom(s, i) == WordsFrom(s, i + 1)
  {
    assert SpanEnd(s, i, true) == SpanEnd(s, i + 1, true);
  }

  /** The scan ignores what lies before where it starts. */
  lemma {:induction false} SpanEndShift(x: string, y: string, i: nat, space: bool)
    requires i <= |y|
    ensures SpanEnd(x + y, |x| + i, space) == |x| + SpanEnd(y, i, space)
    decreases |y| - i
  {
    if i < |y| {
      assert (x + y)[|x| + i] == y[i];
      if IsSpace(y[i]) == space { SpanEndShift(x, y, i + 1, space); }
    }
  }

  lemma SliceShift(x: string, y: string, a: nat, b: nat)
    requires a <= b <= |y|
    ensures (x + y)[|x| + a..|x| + b] == y[a..b]
  {
    var u := (x + y)[|x| + a..|x| + b];
    forall k | 0 <= k < b - a ensures u[k] == y[a + k] { assert u[k] == (x + y)[|x| + a + k]; }
  }

  lemma {:induction false} WordsFromShift(x: string, y: string, i: nat)
    requires i <= |y|
    ensures WordsFrom(x + y, |x| + i) == WordsFrom(y, i)
    decreases |y| - i
  {
    var a := SpanEnd(y, i, true);
    SpanEndShift(x, y, i, true);
    if a < |y| {
      var b := SpanEnd(y, a, false);
      SpanEndShift(x, y, a, false);
      WordsFromShift(x, y, b);
      assert (x + y)[|x| + a..|x| + b] == y[a..b] by { SliceShift(x, y, a, b); }
    }
  }

  /** Whitespace from `i` to `j` is skipped. */
  lemma {:induction false} WordsFromSkip(s: string, i: nat, j: nat)
    requires i <= j <= |s| && forall k :: i <= k < j ==> IsSpace(s[k])
    ensures WordsFrom(s, i) == WordsFrom(s, j)
    decreases j - i
  {
    if i < j {
      WordsFromSpace(s, i);
      WordsFromSkip(s, i + 1, j);
    }
  }

  /** Text made only of whitespace has no words. */
  lemma WordsBlank(s: string)
    requires AllSpace(s)
    ensures Words(s) == []
  {
    WordsFromSkip(s, 0, |s|);
    assert WordsFrom(s, |s|) == [];
  }

  /** Leading whitespace does not change the words. */
  lemma WordsLead(lead: string, rest: string)
    requires AllSpace(lead)
    ensures Words(lead + rest) == Words(rest)
  {
    var s := lead + rest;
    forall k | 0 <= k < |lead| ensures IsSpace(s[k]) { assert s[k] == lead[k]; }
    WordsFromSkip(s, 0, |lead|);
    WordsFromShift(lead, rest, 0);
  }

  /** A non-empty whitespace-free word followed by whitespace only is that one word. */
  lemma WordsLast(w: string, trail: string)
    requires |w| > 0 && NoSpace(w) && AllSpace(trail)
    ensures Words(w + trail) == [w]
  {
    var s := w + trail;
    forall k | 0 <= k < |w| ensures s[k] == w[k] { }
    forall k | |w| <= k < |s| ensures IsSpace(s[k]) { assert s[k] == trail[k - |w|]; }
    SpanEndIs(s, 0, 0, true);
    SpanEndIs(s, 0, |w|, false);
    assert s[0..|w|] == w;
    WordsFromSkip(s, |w|, |s|);
    assert WordsFrom(s, |s|) == [];
  }

  /** A non-empty whitespace-free word, then text starting with whitespace: the first word. */
  lemma WordsFirst(w: string, u: string)
    requires |w| > 0 && NoSpace(w) && |u| > 0 && IsSpace(u[0])
    ensures Words(w + u) == [w] + Words(u)
  {
    FirstWordSpan(w, u);
    WordsFromShift(w, u, 0);
  }

  /** Where the scans for the first word of `w + u` stop. */
  lemma FirstWordSpan(w: string, u: string)
    requires |w| > 0 && NoSpace(w) && |u| > 0 && IsSpace(u[0])
    ensures SpanEnd(w + u, 0, true) == 0 && SpanEnd(w + u, 0, false) == |w| && (w + u)[0..|w|] == w
  {
    var s := w + u;
    forall k | 0 <= k < |w| ensures !IsSpace(s[k]) { assert s[k] == w[k]; }
    assert s[|w|] == u[0];
    SpanEndIs(s, 0, |w|, false);
  }

  /** A non-empty whitespace-free word at the front, then a run of whitespace: the first word. */
  lemma WordsFront(w: string, sep: string, rest: string)
    requires |w| > 0 && NoSpace(w) && |sep| > 0 && AllSpace(sep)
    ensures Words(w + sep + rest) == [w] + Words(rest)
  {
    assert w + sep + rest == w + (sep + rest);
    assert (sep + rest)[0] == sep[0];
    WordsFirst(w, sep + rest);
    WordsLead(sep, rest);
  }

  /** `split()` undoes joining non-empty whitespace-free words with single spaces. */
  lemma {:induction false} WordsJoin(ws: seq<string>)
    requires |ws| >= 1 && forall k :: 0 <= k < |ws| ==> |ws[k]| > 0 && NoSpace(ws[k])
    ensures Words(Join(ws, ' ')) == ws
    decreases |ws|
  {
    if |ws| == 1 {
      WordsLast(ws[0], "");
      assert ws[0] + "" == ws[0];
    } else {
      WordsJoin(ws[1..]);
      WordsFront(ws[0], " ", Join(ws[1..], ' '));
      assert [ws[0]] + ws[1..] == ws;
    }
  }

  /** Words laid out with the whitespace runs `seps` between them. */
  function Spaced(ws: seq<string>, seps: seq<string>): string
    requires |ws| >= 1 && |seps| == |ws| - 1
    decreases |ws|
  {
    if |ws| == 1 then ws[0] else ws[0] + seps[0] + Spaced(ws[1..], seps[1..])
  }

  lemma {:induction false} WordsSpacedTrail(ws: seq<string>, seps: seq<string>, trail: string)
    requires |ws| >= 1 && |seps| == |ws| - 1
    requires forall k :: 0 <= k < |ws| ==> |ws[k]| > 0 && NoSpace(ws[k])
    requires forall k :: 0 <= k < |seps| ==> |seps[k]| > 0 && AllSpace(seps[k])
    requires AllSpace(trail)
    ensures Words(Spaced(ws, seps) + trail) == ws
    decreases |ws|
  {
    if |ws| == 1 {
      WordsLast(ws[0], trail);
    } else {
      var rest := Spaced(ws[1..], seps[1..]) + trail;
      assert Spaced(ws, seps) + trail == ws[0] + seps[0] + rest;
      WordsSpacedTrail(ws[1..], seps[1..], trail);
      WordsFront(ws[0], seps[0], rest);
      assert [ws[0]] + ws[1..] == ws;
    }
  }

  /**
   * `split()` gives back non-empty whitespace-free words whatever whitespace lies before,
   * between and after them, as long as some lies between each two.
   */
  lemma WordsSpaced(lead: string, ws: seq<string>, seps: seq<string>, trail: string)
    requires |ws| >= 1 && |seps| == |ws| - 1
    requires forall k :: 0 <= k < |ws| ==> |ws[k]| > 0 && NoSpace(ws[k])
    requires forall k :: 0 <= k < |seps| ==> |seps[k]| > 0 && AllSpace(seps[k])
    requires AllSpace(lead) && AllSpace(trail)
    ensures Words(lead + Spaced(ws, seps) + trail) == ws
  {
    WordsSpacedTrail(ws, seps, trail);
    assert lead + Spaced(ws, seps) + trail == lead + (Spaced(ws, seps) + trail);
    WordsLead(lead, Spaced(ws, seps) + trail);
  }

  // ---------------------------------------------------------------------------
  // int(token)
  // ---------------------------------------------------------------------------

  function DigitValue(c: char): nat
    requires IsDigit(c)
  {
    c as int - '0' as int
  }

  function DigitChar(d: nat): (c: char)
    requires d < 10
    ensures IsDigit(c) && DigitValue(c) == d
  {
    ('0' as int + d) as char
  }

  /** Python's integer literal body: digits, with single underscores allowed between digits. */
  predicate DigitGroups(s: string) {
    |s| > 0 && IsDigit(s[0]) &&
    forall k {:trigger s[k]} :: 0 <= k < |s| ==> IsDigit(s[k]) || (s[k] == '_' && k + 1 < |s| && IsDigit(s[k + 1]))
  }

  /** The decimal value of the digits of `s`, underscores skipped. */
  function DecimalValue(s: string): nat
    decreases |s|
  {
    if |s| == 0 then 0
    else
      var last := s[|s| - 1];
      if IsDigit(last) then 10 * DecimalValue(s[..|s| - 1]) + DigitValue(last)
      else DecimalValue(s[..|s| - 1])
  }

  /** Python's `int(token)` on a whitespace-free token: an optional sign and a digit body. */
  function ParseInt(token: string): Option<int> {
    if |token| > 0 && (token[0] == '+' || token[0] == '-') then
      var body := token[1..];
      var magnitude: int := DecimalValue(body);
      if DigitGroups(body) then Some(if token[0] == '-' then -magnitude else magnitude)
      else None
    else if DigitGroups(token) then Some(DecimalValue(token))
    else None
  }

  /** Decimal rendering of a natural number, as a detector writes its counts. */
  function ShowNat(n: nat): (s: string)
    ensures |s| > 0 && AllDigits(s)
    decreases n
  {
    if n < 10 then [DigitChar(n)] else ShowNat(n / 10) + [DigitChar(n % 10)]
  }

  function ShowInt(n: int): string {
    if n < 0 then "-" + ShowNat(-n) else ShowNat(n)
  }

  lemma {:induction false} DecimalValueOfShowNat(n: nat)
    ensures DecimalValue(ShowNat(n)) == n
    decreases n
  {
    if n >= 10 {
      DecimalValueOfShowNat(n / 10);
      var s := ShowNat(n);
      assert s[..|s| - 1] == ShowNat(n / 10);
    }
  }

  /** `int()` reads back every decimal rendering: it is the inverse of `str()` on integers. */
  lemma ParseIntShowInt(n: int)
    ensures ParseInt(ShowInt(n)) == Some(n)
  {
    var m: nat := if n < 0 then -n else n;
    DecimalValueOfShowNat(m);
    var s := ShowNat(m);
    assert DigitGroups(s);
    if n < 0 {
      assert ShowInt(n)[1..] == s;
    }
  }

  /** Whatever `int()` accepts is made of a sign, digits and underscores only. */
  lemma ParseIntAlphabet(token: string)
    requires ParseInt(token).Some?
    ensures forall k :: 0 <= k < |token| ==>
      IsDigit(token[k]) || token[k] == '_' || (k == 0 && (token[k] == '+' || token[k] == '-'))
    ensures exists k :: 0 <= k < |token| && IsDigit(token[k])
  {
    if |token| > 0 && (token[0] == '+' || token[0] == '-') {
      var body := token[1..];
      assert DigitGroups(body);
      forall k | 1 <= k < |token|
        ensures IsDigit(token[k]) || token[k] == '_'
      {
        assert token[k] == body[k - 1];
        assert IsDigit(body[k - 1]) || body[k - 1] == '_';
      }
      assert token[1] == body[0];
    } else {
      assert DigitGroups(token);
      forall k | 0 <= k < |token|
        ensures IsDigit(token[k]) || token[k] == '_'
      {
        assert IsDigit(token[k]) || token[k] == '_';
      }
      assert IsDigit(token[0]);
    }
  }
}
