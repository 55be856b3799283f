/**
 * The one regular expression of the report script,
 *
 *     image \d/\d (.+?): (\d+x\d+) (.+?), (\d+\.\d+)ms
 *
 * written as a hand-made matcher, and `re.findall` as the left-to-right scan that
 * collects its matches. Every greedy `\d+` of the pattern is followed by a literal
 * that is not a digit, so backtracking can never shorten it: it matches exactly the
 * maximal digit run, and the matcher takes that run. Each lazy `.+?` takes the least
 * end position (up to the first newline, since `.` does not match one) for which the
 * rest of the pattern matches; nesting the path search outside the objects search
 * gives the order in which the backtracking engine tries the alternatives.
 */
module Pattern {
  import opened Wrappers
  import opened Text

  /** The four groups of one match, as `re.findall` returns them. */
  datatype Match = Match(path: string, resolution: string, objects: string, elapsed: string)

  /** Where groups 2 to 4 end once group 1 (the path) is fixed. */
  datatype Spans = Spans(resolutionEnd: nat, objectsEnd: nat, end: nat)

  /** End of the maximal digit run starting at `i`. */
  function DigitsEnd(t: string, i: nat): (j: nat)
    requires i <= |t|
    ensures i <= j <= |t| && (j < |t| ==> !IsDigit(t[j]))
    decreases |t| - i
  {
    if i < |t| && IsDigit(t[i]) then DigitsEnd(t, i + 1) else i
  }

  /** The first newline at or after `i`, or the end of the text: how far `.` can reach. */
  function LineEnd(t: string, i: nat): (j: nat)
    requires i <= |t|
    ensures i <= j <= |t| && (j < |t| ==> t[j] == '\n')
    decreases |t| - i
  {
    if i < |t| && t[i] != '\n' then LineEnd(t, i + 1) else i
  }

  /** The least `k` in `[lo, hi]` satisfying `p`: the end position a lazy quantifier settles on. */
  function Least(lo: nat, hi: nat, p: nat -> bool): (r: Option<nat>)
    ensures r.Some? ==> lo <= r.value <= hi && p(r.value) && forall k :: lo <= k < r.value ==> !p(k)
    ensures r.None? ==> forall k :: lo <= k <= hi ==> !p(k)
    decreases hi - lo
  {
    if lo > hi then None else if p(lo) then Some(lo) else Least(lo + 1, hi, p)
  }

  /** `, (\d+\.\d+)ms` at `k`; the result is the end of the whole match. */
  function TerminatorEnd(t: string, k: nat): Option<nat> {
    if k + 2 <= |t| && t[k] == ',' && t[k + 1] == ' ' then
      var a := DigitsEnd(t, k + 2);
      if a > k + 2 && a < |t| && t[a] == '.' then
        var b := DigitsEnd(t, a + 1);
        if b > a + 1 && b + 2 <= |t| && t[b] == 'm' && t[b + 1] == 's' then Some(b + 2) else None
      else None
    else None
  }

  /** The object text may end at `k`: the terminator follows there. */
  function TerminatesAt(t: string): nat -> bool {
    (k: nat) => TerminatorEnd(t, k).Some?
  }

  /** `: (\d+x\d+) (.+?), (\d+\.\d+)ms` at `q`, the lazy objects group taking the least end that works. */
  function AfterPath(t: string, q: nat): Option<Spans> {
    if q + 2 <= |t| && t[q] == ':' && t[q + 1] == ' ' then
      var a := DigitsEnd(t, q + 2);
      if a > q + 2 && a < |t| && t[a] == 'x' then
        var b := DigitsEnd(t, a + 1);
        if b > a + 1 && b < |t| && t[b] == ' ' then
          match Least(b + 2, LineEnd(t, b + 1), TerminatesAt(t))
          case Some(k) => Some(Spans(b, k, TerminatorEnd(t, k).value))
          case None => None
        else None
      else None
    else None
  }

  /** The path may end at `q`: the rest of the pattern matches there. */
  function PathEndsAt(t: string): nat -> bool {
    (q: nat) => AfterPath(t, q).Some?
  }

  /** `image \d/\d ` at `p`. */
  predicate HeaderAt(t: string, p: nat) {
    p + 10 <= |t| && t[p] == 'i' && t[p + 1] == 'm' && t[p + 2] == 'a' && t[p + 3] == 'g' &&
    t[p + 4] == 'e' && t[p + 5] == ' ' && IsDigit(t[p + 6]) && t[p + 7] == '/' && IsDigit(t[p + 8]) &&
    t[p + 9] == ' '
  }

  /** Facts every successful `AfterPath` gives about the positions it reports. */
  lemma AfterPathBounds(t: string, q: nat)
    requires AfterPath(t, q).Some?
    ensures var g := AfterPath(t, q).value;
      q + 2 < g.resolutionEnd && g.resolutionEnd + 1 < g.objectsEnd && g.objectsEnd + 7 <= g.end <= |t|
  {
  }

  /** The match a path ending at `x..q` and the spans `g` after it cut out of `t`. */
  function Groups(t: string, x: nat, q: nat, g: Spans): Match
    requires x <= q && q + 2 < g.resolutionEnd && g.resolutionEnd + 1 < g.objectsEnd && g.objectsEnd + 7 <= g.end <= |t|
  {
    Match(t[x..q], t[q + 2..g.resolutionEnd], t[g.resolutionEnd + 1..g.objectsEnd], t[g.objectsEnd + 2..g.end - 2])
  }

  /** One match starting exactly at `p` (what `re.findall` tries at each position), and where it ends. */
  function MatchAt(t: string, p: nat): (r: Option<(Match, nat)>)
    ensures r.Some? ==> HeaderAt(t, p) && p < r.value.1 <= |t|
  {
    if HeaderAt(t, p) then
      match Least(p + 11, LineEnd(t, p + 10), PathEndsAt(t))
      case Some(q) =>
        AfterPathBounds(t, q);
        var g := AfterPath(t, q).value;
        Some((Groups(t, p + 10, q, g), g.end))
      case None => None
    else None
  }

  /** `re.findall` from position `p`: try a match, resume after it, otherwise move on by one. */
  function FindAll(t: string, p: nat): seq<Match>
    requires p <= |t|
    decreases |t| - p
  {
    if p == |t| then []
    else
      match MatchAt(t, p)
      case Some((m, e)) => [m] + FindAll(t, e)
      case None => FindAll(t, p + 1)
  }

  /** `re.findall(pattern, text)`. */
  function Matches(text: string): seq<Match> {
    FindAll(text, 0)
  }

  // ---------------------------------------------------------------------------
  // What a match looks like
  // ---------------------------------------------------------------------------

  /** The text a match covers after the `image i/n ` header, rebuilt from its groups. */
  function Render(m: Match): string {
    m.path + (": " + (m.resolution + (" " + (m.objects + (", " + (m.elapsed + "ms"))))))
  }

  /** `\d+<sep>\d+` as a whole string. */
  predicate DigitsAround(s: string, sep: char) {
    var a := DigitsEnd(s, 0);
    0 < a && a + 1 < |s| && s[a] == sep && DigitsEnd(s, a + 1) == |s|
  }

  /** The groups of a match: a newline-free path and object text, `WxH` and a decimal time. */
  predicate WellFormed(m: Match) {
    |m.path| > 0 && '\n' !in m.path && DigitsAround(m.resolution, 'x') &&
    |m.objects| > 0 && '\n' !in m.objects && DigitsAround(m.elapsed, '.')
  }

  /** `: ` at `j`, the only place where the lazy path group can stop. */
  predicate ColonSpaceAt(s: string, j: nat) {
    j + 1 < |s| && s[j] == ':' && s[j + 1] == ' '
  }

  /** No `: ` inside a path: the lazy path group cannot stop before its end. */
  predicate NoColonSpace(s: string) {
    forall j :: 0 <= j < |s| ==> !ColonSpaceAt(s, j)
  }

  /**
   * No `, <digits>.<digits>ms` starts inside an object text after its first character:
   * the lazy objects group cannot stop before its end.
   */
  predicate NoTerminator(s: string) {
    forall k :: 0 < k < |s| ==> TerminatorEnd(s, k).None?
  }

  // ---------------------------------------------------------------------------
  // Scans and slices
  // ---------------------------------------------------------------------------

  lemma {:induction false} DigitsEndCovers(t: string, i: nat)
    requires i <= |t|
    ensures forall k :: i <= k < DigitsEnd(t, i) ==> IsDigit(t[k])
    decreases |t| - i
  {
    if i < |t| && IsDigit(t[i]) { DigitsEndCovers(t, i + 1); }
  }

  lemma {:induction false} DigitsEndIs(t: string, i: nat, j: nat)
    requires i <= j <= |t| && (forall k :: i <= k < j ==> IsDigit(t[k])) && (j < |t| ==> !IsDigit(t[j]))
    ensures DigitsEnd(t, i) == j
    decreases j - i
  {
    if i < j { DigitsEndIs(t, i + 1, j); }
  }

  lemma {:induction false} LineEndCovers(t: string, i: nat)
    requires i <= |t|
    ensures forall k :: i <= k < LineEnd(t, i) ==> t[k] != '\n'
    decreases |t| - i
  {
    if i < |t| && t[i] != '\n' { LineEndCovers(t, i + 1); }
  }

  lemma {:induction false} LineEndAtLeast(t: string, i: nat, j: nat)
    requires i <= j <= |t| && forall k :: i <= k < j ==> t[k] != '\n'
    ensures LineEnd(t, i) >= j
    decreases j - i
  {
    if i < j { LineEndAtLeast(t, i + 1, j); }
  }

  lemma {:induction false} LineEndFrom(t: string, i: nat, j: nat)
    requires i <= |t| && i <= j <= LineEnd(t, i)
    ensures LineEnd(t, j) == LineEnd(t, i)
    decreases j - i
  {
    if i < j { LineEndFrom(t, i + 1, j); }
  }

  lemma {:induction false} LeastIs(lo: nat, hi: nat, f: nat -> bool, k: nat)
    requires lo <= k <= hi && f(k) && forall j :: lo <= j < k ==> !f(j)
    ensures Least(lo, hi, f) == Some(k)
    decreases hi - lo
  {
    if lo < k { LeastIs(lo + 1, hi, f, k); }
  }

  lemma SliceSplit(t: string, a: nat, b: nat, c: nat)
    requires a <= b <= c <= |t|
    ensures t[a..c] == t[a..b] + t[b..c]
  {
  }

  /** A slice equal to a concatenation splits into slices equal to the parts. */
  lemma SliceParts(t: string, a: nat, c: nat, u: string, v: string)
    requires a <= c <= |t| && t[a..c] == u + v
    ensures a + |u| <= c && t[a..a + |u|] == u && t[a + |u|..c] == v
  {
    var b := a + |u|;
    SliceSplit(t, a, b, c);
    assert t[a..c][..|u|] == u;
    assert t[a..c][|u|..] == v;
  }

  /** The characters of a slice are the characters of the text. */
  lemma SliceChars(t: string, a: nat, c: nat, s: string)
    requires a <= c <= |t| && t[a..c] == s
    ensures forall k :: a <= k < c ==> t[k] == s[k - a]
  {
    forall k | a <= k < c ensures t[k] == s[k - a] { assert t[a..c][k - a] == t[k]; }
  }

  /** A slice of a newline-free stretch of the text is newline free. */
  lemma NoNewlineSlice(t: string, x: nat, y: nat, z: nat)
    requires x <= y <= z <= |t| && forall k :: x <= k < z ==> t[k] != '\n'
    ensures '\n' !in t[x..y]
  {
    var s := t[x..y];
    forall k | 0 <= k < |s| ensures s[k] != '\n' { assert s[k] == t[x + k]; }
  }

  // ---------------------------------------------------------------------------
  // What each step of the matcher reads when it succeeds
  // ---------------------------------------------------------------------------

  /** What `TerminatorEnd` reads when it succeeds. */
  lemma TerminatorFacts(t: string, k: nat) returns (a: nat)
    requires TerminatorEnd(t, k).Some?
    ensures var e := TerminatorEnd(t, k).value;
      k + 2 < a && a + 1 < e - 2 && e <= |t| && t[k] == ',' && t[k + 1] == ' ' && t[a] == '.' &&
      t[e - 2] == 'm' && t[e - 1] == 's' && DigitsEnd(t, k + 2) == a && DigitsEnd(t, a + 1) == e - 2
  {
    a := DigitsEnd(t, k + 2);
  }

  /** What `AfterPath` reads when it succeeds. */
  lemma AfterPathFacts(t: string, q: nat) returns (a: nat)
    requires AfterPath(t, q).Some?
    ensures var g := AfterPath(t, q).value;
      q + 2 < a && a + 1 < g.resolutionEnd && g.resolutionEnd + 1 < g.objectsEnd && g.objectsEnd + 7 <= g.end <= |t|
    ensures var g := AfterPath(t, q).value;
      t[q] == ':' && t[q + 1] == ' ' && t[a] == 'x' && t[g.resolutionEnd] == ' ' &&
      DigitsEnd(t, q + 2) == a && DigitsEnd(t, a + 1) == g.resolutionEnd
    ensures var g := AfterPath(t, q).value;
      g.objectsEnd <= LineEnd(t, g.resolutionEnd + 1) && TerminatorEnd(t, g.objectsEnd) == Some(g.end)
    ensures var g := AfterPath(t, q).value;
      forall k :: g.resolutionEnd + 2 <= k < g.objectsEnd ==> TerminatorEnd(t, k).None?
  {
    a := DigitsEnd(t, q + 2);
    var b := DigitsEnd(t, a + 1);
    var f := TerminatesAt(t);
    var k := Least(b + 2, LineEnd(t, b + 1), f).value;
    assert AfterPath(t, q).value == Spans(b, k, TerminatorEnd(t, k).value);
    forall j | b + 2 <= j < k ensures TerminatorEnd(t, j).None? {
      assert !f(j);
    }
  }

  /** The positions a successful `MatchAt` settles on, and the groups it cuts out at them. */
  lemma MatchAtSpans(t: string, p: nat) returns (q: nat, g: Spans)
    requires MatchAt(t, p).Some?
    ensures HeaderAt(t, p) && p + 11 <= q <= LineEnd(t, p + 10) && AfterPath(t, q) == Some(g)
    ensures forall q' :: p + 11 <= q' < q ==> AfterPath(t, q').None?
    ensures q + 2 < g.resolutionEnd && g.resolutionEnd + 1 < g.objectsEnd && g.objectsEnd + 7 <= g.end <= |t|
    ensures MatchAt(t, p) == Some((Groups(t, p + 10, q, g), g.end))
  {
    var f := PathEndsAt(t);
    q := Least(p + 11, LineEnd(t, p + 10), f).value;
    g := AfterPath(t, q).value;
    AfterPathBounds(t, q);
    forall q' | p + 11 <= q' < q ensures AfterPath(t, q').None? { assert !f(q'); }
  }

  // ---------------------------------------------------------------------------
  // Soundness and laziness of MatchAt
  // ---------------------------------------------------------------------------

  /** A slice made only of digits and one separator, cut at the ends of its digit runs, is `\d+<sep>\d+`. */
  lemma DigitsAroundSlice(t: string, x: nat, a: nat, y: nat, sep: char)
    requires x < a && a + 1 < y <= |t| && t[a] == sep && !IsDigit(sep)
    requires DigitsEnd(t, x) == a && DigitsEnd(t, a + 1) == y
    ensures DigitsAround(t[x..y], sep)
  {
    var s := t[x..y];
    DigitsEndCovers(t, x);
    DigitsEndCovers(t, a + 1);
    forall k | 0 <= k < |s| ensures s[k] == t[x + k] { }
    DigitsEndIs(s, 0, a - x);
    DigitsEndIs(s, a - x + 1, |s|);
  }

  lemma ResolutionGroup(t: string, q: nat, g: Spans)
    requires AfterPath(t, q) == Some(g)
    ensures q + 2 < g.resolutionEnd <= |t| && DigitsAround(t[q + 2..g.resolutionEnd], 'x')
  {
    var a := AfterPathFacts(t, q);
    DigitsAroundSlice(t, q + 2, a, g.resolutionEnd, 'x');
  }

  lemma ObjectsGroup(t: string, q: nat, g: Spans)
    requires AfterPath(t, q) == Some(g)
    ensures g.resolutionEnd + 1 < g.objectsEnd <= |t| && '\n' !in t[g.resolutionEnd + 1..g.objectsEnd]
  {
    var a := AfterPathFacts(t, q);
    var o := g.resolutionEnd + 1;
    LineEndCovers(t, o);
    NoNewlineSlice(t, o, g.objectsEnd, LineEnd(t, o));
  }

  lemma ElapsedGroup(t: string, q: nat, g: Spans)
    requires AfterPath(t, q) == Some(g)
    ensures g.objectsEnd + 7 <= g.end <= |t| && DigitsAround(t[g.objectsEnd + 2..g.end - 2], '.')
  {
    var a := AfterPathFacts(t, q);
    TerminatorSlice(t, g.objectsEnd, g.end);
  }

  /** The elapsed time a terminator reads is `\d+\.\d+`. */
  lemma TerminatorSlice(t: string, k: nat, e: nat)
    requires TerminatorEnd(t, k) == Some(e)
    ensures k + 7 <= e <= |t| && DigitsAround(t[k + 2..e - 2], '.')
    ensures t[k] == ',' && t[k + 1] == ' ' && t[e - 2] == 'm' && t[e - 1] == 's'
  {
    var d := TerminatorFacts(t, k);
    DigitsAroundSlice(t, k + 2, d, e - 2, '.');
  }

  lemma PathGroup(t: string, p: nat, q: nat)
    requires p + 10 <= |t| && p + 10 < q <= LineEnd(t, p + 10)
    ensures '\n' !in t[p + 10..q]
  {
    LineEndCovers(t, p + 10);
    NoNewlineSlice(t, p + 10, q, LineEnd(t, p + 10));
  }

  /** The groups a match cuts out are well formed. */
  lemma GroupsWellFormed(t: string, p: nat, q: nat, g: Spans)
    requires p + 10 <= |t| && p + 10 < q <= LineEnd(t, p + 10) && AfterPath(t, q) == Some(g)
    ensures q + 2 < g.resolutionEnd && g.resolutionEnd + 1 < g.objectsEnd && g.objectsEnd + 7 <= g.end <= |t|
    ensures WellFormed(Groups(t, p + 10, q, g))
  {
    ResolutionGroup(t, q, g);
    ObjectsGroup(t, q, g);
    ElapsedGroup(t, q, g);
    PathGroup(t, p, q);
  }

  /** The groups put back between the pattern's literals give the text they were cut from. */
  lemma GroupsAssemble(t: string, x: nat, q: nat, g: Spans)
    requires x <= q && q + 2 < g.resolutionEnd && g.resolutionEnd + 1 < g.objectsEnd && g.objectsEnd + 7 <= g.end <= |t|
    requires t[q] == ':' && t[q + 1] == ' ' && t[g.resolutionEnd] == ' ' && t[g.objectsEnd] == ',' &&
      t[g.objectsEnd + 1] == ' ' && t[g.end - 2] == 'm' && t[g.end - 1] == 's'
    ensures t[x..g.end] == Render(Groups(t, x, q, g))
  {
    var r, k, e := g.resolutionEnd, g.objectsEnd, g.end;
    var m := Groups(t, x, q, g);
    var s6 := SliceJoin(t, k + 2, e - 2, e, m.elapsed, "ms");
    var s5 := SliceJoin(t, k, k + 2, e, ", ", s6);
    var s4 := SliceJoin(t, r + 1, k, e, m.objects, s5);
    var s3 := SliceJoin(t, r, r + 1, e, " ", s4);
    var s2 := SliceJoin(t, q + 2, r, e, m.resolution, s3);
    var s1 := SliceJoin(t, q, q + 2, e, ": ", s2);
    var s0 := SliceJoin(t, x, q, e, m.path, s1);
  }

  /** Adjacent slices known to be `u` and `v` make a slice that is `u + v`. */
  lemma SliceJoin(t: string, a: nat, b: nat, c: nat, u: string, v: string) returns (w: string)
    requires a <= b <= c <= |t| && t[a..b] == u && t[b..c] == v
    ensures w == u + v && t[a..c] == w
  {
    w := u + v;
    SliceSplit(t, a, b, c);
  }

  lemma GroupsRender(t: string, x: nat, q: nat, g: Spans)
    requires x <= q && AfterPath(t, q) == Some(g)
    ensures q + 2 < g.resolutionEnd && g.resolutionEnd + 1 < g.objectsEnd && g.objectsEnd + 7 <= g.end <= |t|
    ensures t[x..g.end] == Render(Groups(t, x, q, g))
  {
    SpansChars(t, q, g);
    GroupsAssemble(t, x, q, g);
  }

  /** The literal characters around the spans `AfterPath` finds. */
  lemma SpansChars(t: string, q: nat, g: Spans)
    requires AfterPath(t, q) == Some(g)
    ensures q + 2 < g.resolutionEnd && g.resolutionEnd + 1 < g.objectsEnd && g.objectsEnd + 7 <= g.end <= |t|
    ensures t[q] == ':' && t[q + 1] == ' ' && t[g.resolutionEnd] == ' ' && t[g.objectsEnd] == ',' &&
      t[g.objectsEnd + 1] == ' ' && t[g.end - 2] == 'm' && t[g.end - 1] == 's'
  {
    var a := AfterPathFacts(t, q);
    TerminatorSlice(t, g.objectsEnd, g.end);
  }

  /** A header followed by a newline-free text is newline free as a whole. */
  lemma HeaderLine(t: string, p: nat, e: nat)
    requires HeaderAt(t, p) && p + 10 <= e <= |t| && '\n' !in t[p + 10..e]
    ensures LineEnd(t, p) >= e
  {
    forall k | p <= k < e ensures t[k] != '\n' {
      if k >= p + 10 { assert t[p + 10..e][k - p - 10] == t[k]; }
    }
    LineEndAtLeast(t, p, e);
  }

  /**
   * Every match is an instance of the pattern: after the `image i/n ` header the text
   * is exactly the groups put back between the pattern's literals, the groups are well
   * formed, and nothing of the match lies past the end of its line.
   */
  lemma MatchAtSound(t: string, p: nat) returns (m: Match, e: nat)
    requires MatchAt(t, p).Some?
    ensures MatchAt(t, p) == Some((m, e))
    ensures HeaderAt(t, p) && WellFormed(m) && e == p + 10 + |Render(m)| && t[p + 10..e] == Render(m) && e <= LineEnd(t, p)
  {
    var q, g := MatchAtSpans(t, p);
    m, e := GroupsSound(t, p, q, g);
  }

  /** What `MatchAtSound` states, for the groups cut out at known spans. */
  lemma GroupsSound(t: string, p: nat, q: nat, g: Spans) returns (m: Match, e: nat)
    requires HeaderAt(t, p) && p + 10 < q <= LineEnd(t, p + 10) && AfterPath(t, q) == Some(g)
    ensures q + 2 < g.resolutionEnd && g.resolutionEnd + 1 < g.objectsEnd && g.objectsEnd + 7 <= g.end <= |t|
    ensures m == Groups(t, p + 10, q, g) && e == g.end
    ensures WellFormed(m) && e == p + 10 + |Render(m)| && t[p + 10..e] == Render(m) && e <= LineEnd(t, p)
  {
    AfterPathBounds(t, q);
    m, e := Groups(t, p + 10, q, g), g.end;
    assert WellFormed(m) by { GroupsWellFormed(t, p, q, g); }
    assert t[p + 10..e] == Render(m) by { GroupsRender(t, p + 10, q, g); }
    RenderedLine(t, p, m, e);
  }

  /** A header followed by a rendered well-formed match: the match ends within the line. */
  lemma RenderedLine(t: string, p: nat, m: Match, e: nat)
    requires HeaderAt(t, p) && WellFormed(m) && p + 10 <= e <= |t| && t[p + 10..e] == Render(m)
    ensures e == p + 10 + |Render(m)| && e <= LineEnd(t, p)
  {
    RenderNoNewline(m);
    HeaderLine(t, p, e);
  }

  lemma DigitsAroundNoNewline(s: string, sep: char)
    requires DigitsAround(s, sep) && sep != '\n'
    ensures '\n' !in s
  {
    var a := DigitsEnd(s, 0);
    DigitsEndCovers(s, 0);
    DigitsEndCovers(s, a + 1);
    forall k | 0 <= k < |s| ensures s[k] != '\n' {
      if k != a { assert IsDigit(s[k]); }
    }
  }

  lemma RenderNoNewline(m: Match)
    requires WellFormed(m)
    ensures '\n' !in Render(m)
  {
    DigitsAroundNoNewline(m.resolution, 'x');
    DigitsAroundNoNewline(m.elapsed, '.');
  }

  /** The lazy groups stop as early as they can: no shorter path, and no shorter object text, lets the rest match. */
  lemma MatchAtLazy(t: string, p: nat)
    requires MatchAt(t, p).Some?
    ensures var m := MatchAt(t, p).value.0; var q := p + 10 + |m.path|;
      forall q' :: p + 11 <= q' < q ==> AfterPath(t, q').None?
    ensures var m := MatchAt(t, p).value.0; var o := p + 10 + |m.path| + 2 + |m.resolution| + 1;
      forall k :: o + 1 <= k < o + |m.objects| ==> TerminatorEnd(t, k).None?
  {
    var q, g := MatchAtSpans(t, p);
    var a := AfterPathFacts(t, q);
  }

  // ---------------------------------------------------------------------------
  // Completeness: text in the shape of the pattern is matched
  // ---------------------------------------------------------------------------

  /** A text starting with two known characters: the characters, and the slice after them. */
  lemma PairPrefix(t: string, a: nat, c: nat, w: string, v: string)
    requires a <= c <= |t| && |w| == 2 && t[a..c] == w + v
    ensures a + 2 <= c && t[a] == w[0] && t[a + 1] == w[1] && t[a + 2..c] == v
  {
    SliceParts(t, a, c, w, v);
    assert t[a..a + 2][0] == t[a] && t[a..a + 2][1] == t[a + 1];
  }

  lemma OnePrefix(t: string, a: nat, c: nat, w: string, v: string)
    requires a <= c <= |t| && |w| == 1 && t[a..c] == w + v
    ensures a + 1 <= c && t[a] == w[0] && t[a + 1..c] == v
  {
    SliceParts(t, a, c, w, v);
    assert t[a..a + 1][0] == t[a];
  }

  /** `, <elapsed>ms` found back in the text. */
  lemma TailPieces(t: string, k: nat, e: nat, el: string)
    requires k <= e <= |t| && t[k..e] == ", " + (el + "ms")
    ensures k + 2 + |el| + 2 == e && t[k] == ',' && t[k + 1] == ' ' && t[k + 2..e - 2] == el
    ensures t[e - 2] == 'm' && t[e - 1] == 's'
  {
    PairPrefix(t, k, e, ", ", el + "ms");
    SliceParts(t, k + 2, e, el, "ms");
    PairPrefix(t, e - 2, e, "ms", "");
  }

  /** ` <objects>, <elapsed>ms` found back in the text. */
  lemma MiddlePieces(t: string, r: nat, e: nat, obj: string, el: string) returns (k: nat)
    requires r <= e <= |t| && t[r..e] == " " + (obj + (", " + (el + "ms")))
    ensures k == r + 1 + |obj| && k + 2 + |el| + 2 == e && t[r] == ' ' && t[r + 1..k] == obj
    ensures t[k] == ',' && t[k + 1] == ' ' && t[k + 2..e - 2] == el && t[e - 2] == 'm' && t[e - 1] == 's'
  {
    OnePrefix(t, r, e, " ", obj + (", " + (el + "ms")));
    k := r + 1 + |obj|;
    SliceParts(t, r + 1, e, obj, ", " + (el + "ms"));
    TailPieces(t, k, e, el);
  }

  /** The literal characters and groups of a rendered match, found back in the text. */
  lemma RenderPieces(t: string, x: nat, m: Match) returns (q: nat, r: nat, k: nat, z: nat)
    requires x + |Render(m)| <= |t| && t[x..x + |Render(m)|] == Render(m)
    ensures q == x + |m.path| && r == q + 2 + |m.resolution| && k == r + 1 + |m.objects| && z == k + 2 + |m.elapsed|
    ensures z + 2 == x + |Render(m)|
    ensures t[x..q] == m.path && t[q] == ':' && t[q + 1] == ' ' && t[q + 2..r] == m.resolution && t[r] == ' '
    ensures t[r + 1..k] == m.objects && t[k] == ',' && t[k + 1] == ' ' && t[k + 2..z] == m.elapsed
    ensures t[z] == 'm' && t[z + 1] == 's'
  {
    var e := x + |Render(m)|;
    q := x + |m.path|;
    SliceParts(t, x, e, m.path, ": " + (m.resolution + (" " + (m.objects + (", " + (m.elapsed + "ms"))))));
    r, k, z := ColonPieces(t, q, e, m);
  }

  /** `: <resolution> <objects>, <elapsed>ms` found back in the text. */
  lemma ColonPieces(t: string, q: nat, e: nat, m: Match) returns (r: nat, k: nat, z: nat)
    requires q <= e <= |t| && t[q..e] == ": " + (m.resolution + (" " + (m.objects + (", " + (m.elapsed + "ms")))))
    ensures r == q + 2 + |m.resolution| && k == r + 1 + |m.objects| && z == k + 2 + |m.elapsed| && z + 2 == e
    ensures t[q] == ':' && t[q + 1] == ' ' && t[q + 2..r] == m.resolution && t[r] == ' '
    ensures t[r + 1..k] == m.objects && t[k] == ',' && t[k + 1] == ' ' && t[k + 2..z] == m.elapsed
    ensures t[z] == 'm' && t[z + 1] == 's'
  {
    var mid := " " + (m.objects + (", " + (m.elapsed + "ms")));
    PairPrefix(t, q, e, ": ", m.resolution + mid);
    r := q + 2 + |m.resolution|;
    SliceParts(t, q + 2, e, m.resolution, mid);
    k := MiddlePieces(t, r, e, m.objects, m.elapsed);
    z := e - 2;
  }

  /** A `\d+<sep>\d+` group laid into `t` at `y..z`, followed by a non-digit: where the two digit runs end. */
  lemma DigitsAroundIn(t: string, y: nat, z: nat, s: string, sep: char) returns (a: nat)
    requires y <= z < |t| && t[y..z] == s && DigitsAround(s, sep) && !IsDigit(sep) && !IsDigit(t[z])
    ensures y < a && a + 1 < z && t[a] == sep && DigitsEnd(t, y) == a && DigitsEnd(t, a + 1) == z
  {
    var i := DigitsEnd(s, 0);
    DigitsEndCovers(s, 0);
    DigitsEndCovers(s, i + 1);
    SliceChars(t, y, z, s);
    a := y + i;
    DigitsEndIs(t, y, a);
    DigitsEndIs(t, a + 1, z);
  }

  /** A terminator `, <elapsed>ms` laid into the text is recognised, and ends where it ends. */
  lemma TerminatorAt(t: string, k: nat, z: nat, el: string)
    requires k + 2 <= z && z + 2 <= |t| && t[k] == ',' && t[k + 1] == ' ' && t[k + 2..z] == el
    requires DigitsAround(el, '.') && t[z] == 'm' && t[z + 1] == 's'
    ensures TerminatorEnd(t, k) == Some(z + 2)
  {
    var a := DigitsAroundIn(t, k + 2, z, el, '.');
  }

  /** A terminator starting inside an object text that is followed by `,` lies wholly inside it. */
  lemma TerminatorInside(t: string, o: nat, k0: nat, obj: string, k: nat)
    requires o < k < k0 < |t| && t[o..k0] == obj && t[k0] == ',' && TerminatorEnd(t, k).Some?
    ensures TerminatorEnd(obj, k - o).Some?
  {
    var a := TerminatorFacts(t, k);
    var b := TerminatorEnd(t, k).value - 2;
    DigitsEndCovers(t, k + 2);
    DigitsEndCovers(t, a + 1);
    assert b + 1 < k0;
    SliceChars(t, o, k0, obj);
    var i := k - o;
    assert obj[i] == ',' && obj[i + 1] == ' ' && obj[a - o] == '.' && obj[b - o] == 'm' && obj[b - o + 1] == 's';
    DigitsEndIs(obj, i + 2, a - o);
    DigitsEndIs(obj, a - o + 1, b - o);
  }

  /** An object text followed by a terminator is found by the lazy objects search; exactly, if no terminator starts inside it. */
  lemma ObjectsFound(t: string, o: nat, k: nat, z: nat, obj: string, el: string)
    requires o < k && k + 2 <= z && z + 2 <= |t| && t[o..k] == obj && '\n' !in obj
    requires t[k] == ',' && t[k + 1] == ' ' && t[k + 2..z] == el && DigitsAround(el, '.')
    requires t[z] == 'm' && t[z + 1] == 's'
    ensures Least(o + 1, LineEnd(t, o), TerminatesAt(t)).Some?
    ensures NoTerminator(obj) ==> Least(o + 1, LineEnd(t, o), TerminatesAt(t)) == Some(k)
    ensures TerminatorEnd(t, k) == Some(z + 2)
  {
    SliceChars(t, o, k, obj);
    assert forall j :: o <= j < k ==> t[j] != '\n' by {
      forall j | o <= j < k ensures t[j] != '\n' { assert t[j] == obj[j - o]; }
    }
    LineEndAtLeast(t, o, k);
    TerminatorAt(t, k, z, el);
    var f := TerminatesAt(t);
    assert f(k);
    if NoTerminator(obj) {
      forall j | o + 1 <= j < k ensures !f(j) {
        if f(j) {
          TerminatorInside(t, o, k, obj, j);
          assert false;
        }
      }
      LeastIs(o + 1, LineEnd(t, o), f, k);
    }
  }

  /** The `: WxH ` part after a path: where the resolution ends. */
  lemma ResolutionFound(t: string, q: nat, r: nat, res: string) returns (a: nat)
    requires q + 2 <= r < |t| && t[q] == ':' && t[q + 1] == ' ' && t[q + 2..r] == res && t[r] == ' '
    requires DigitsAround(res, 'x')
    ensures q + 2 < a && a + 1 < r && t[a] == 'x' && DigitsEnd(t, q + 2) == a && DigitsEnd(t, a + 1) == r
  {
    a := DigitsAroundIn(t, q + 2, r, res, 'x');
  }

  /** `AfterPath` once what it reads is known. */
  lemma AfterPathIs(t: string, q: nat, a: nat, r: nat, found: Option<nat>)
    requires q + 2 < a && a + 1 < r < |t| && t[q] == ':' && t[q + 1] == ' ' && t[a] == 'x' && t[r] == ' '
    requires DigitsEnd(t, q + 2) == a && DigitsEnd(t, a + 1) == r
    requires Least(r + 2, LineEnd(t, r + 1), TerminatesAt(t)) == found
    ensures AfterPath(t, q).Some? <==> found.Some?
    ensures found.Some? ==> AfterPath(t, q) == Some(Spans(r, found.value, TerminatorEnd(t, found.value).value))
  {
  }

  /** `AfterPath` once the object text is known to end at `k` and the match at `e`. */
  lemma AfterPathExact(t: string, q: nat, a: nat, r: nat, k: nat, e: nat)
    requires q + 2 < a && a + 1 < r < |t| && t[q] == ':' && t[q + 1] == ' ' && t[a] == 'x' && t[r] == ' '
    requires DigitsEnd(t, q + 2) == a && DigitsEnd(t, a + 1) == r
    requires Least(r + 2, LineEnd(t, r + 1), TerminatesAt(t)) == Some(k) && TerminatorEnd(t, k) == Some(e)
    ensures AfterPath(t, q) == Some(Spans(r, k, e))
  {
  }

  /** What `AfterPath` reads after a path when the resolution, object text and terminator are laid into the text. */
  lemma AfterPathPieces(t: string, q: nat, r: nat, k: nat, z: nat, res: string, obj: string, el: string) returns (a: nat)
    requires q + 2 <= r && r + 1 < k && k + 2 <= z && z + 2 <= |t|
    requires DigitsAround(res, 'x') && '\n' !in obj && DigitsAround(el, '.')
    requires t[q] == ':' && t[q + 1] == ' ' && t[q + 2..r] == res && t[r] == ' '
    requires t[r + 1..k] == obj && t[k] == ',' && t[k + 1] == ' ' && t[k + 2..z] == el
    requires t[z] == 'm' && t[z + 1] == 's'
    ensures q + 2 < a && a + 1 < r && t[a] == 'x' && DigitsEnd(t, q + 2) == a && DigitsEnd(t, a + 1) == r
    ensures Least(r + 2, LineEnd(t, r + 1), TerminatesAt(t)).Some?
    ensures NoTerminator(obj) ==> Least(r + 2, LineEnd(t, r + 1), TerminatesAt(t)) == Some(k)
    ensures TerminatorEnd(t, k) == Some(z + 2)
  {
    a := ResolutionFound(t, q, r, res);
    ObjectsFound(t, r + 1, k, z, obj, el);
  }

  /**
   * A path laid into the text and followed by ':' holds no newline, and no `: ` starts
   * inside it unless one starts inside the path.
   */
  lemma PathPieces(t: string, x: nat, q: nat, path: string)
    requires x <= q < |t| && t[x..q] == path && '\n' !in path && t[q] == ':'
    ensures forall j :: x <= j < q ==> t[j] != '\n'
    ensures NoColonSpace(path) ==> forall j :: x <= j < q ==> !ColonSpaceAt(t, j)
  {
    SliceChars(t, x, q, path);
    forall j | x <= j < q ensures t[j] == path[j - x] { }
    if NoColonSpace(path) {
      forall j | x <= j < q ensures !ColonSpaceAt(t, j) {
        if j + 1 < q {
          assert !ColonSpaceAt(path, j - x);
        }
      }
    }
  }

  /** The lazy path search at `x` finds an end if `q` is one, and exactly `q` if no `: ` comes first. */
  lemma PathFound(t: string, x: nat, q: nat)
    requires x < q <= |t| && (forall j :: x <= j < q ==> t[j] != '\n') && AfterPath(t, q).Some?
    ensures Least(x + 1, LineEnd(t, x), PathEndsAt(t)).Some?
    ensures (forall j :: x + 1 <= j < q ==> !ColonSpaceAt(t, j)) ==> Least(x + 1, LineEnd(t, x), PathEndsAt(t)) == Some(q)
  {
    LineEndAtLeast(t, x, q);
    var f := PathEndsAt(t);
    assert f(q);
    if forall j :: x + 1 <= j < q ==> !ColonSpaceAt(t, j) {
      forall j | x + 1 <= j < q ensures !f(j) {
        assert !ColonSpaceAt(t, j);
      }
      LeastIs(x + 1, LineEnd(t, x), f, q);
    }
  }

  /** `MatchAt` once the end of the path and what follows it are known. */
  lemma MatchAtOf(t: string, p: nat, q: nat, g: Spans)
    requires HeaderAt(t, p) && p + 10 < q <= |t| && (forall j :: p + 10 <= j < q ==> t[j] != '\n')
    requires AfterPath(t, q) == Some(g)
    ensures MatchAt(t, p).Some?
    ensures (forall j :: p + 11 <= j < q ==> !ColonSpaceAt(t, j)) ==>
      q + 2 < g.resolutionEnd && g.resolutionEnd + 1 < g.objectsEnd && g.objectsEnd + 7 <= g.end <= |t| &&
      MatchAt(t, p) == Some((Groups(t, p + 10, q, g), g.end))
  {
    AfterPathBounds(t, q);
    PathFound(t, p + 10, q);
  }

  /** Every header followed by text in the shape of the pattern yields a match (perhaps a lazier one). */
  lemma MatchAtComplete(t: string, p: nat, m: Match)
    requires HeaderAt(t, p) && WellFormed(m)
    requires p + 10 + |Render(m)| <= |t| && t[p + 10..p + 10 + |Render(m)|] == Render(m)
    ensures MatchAt(t, p).Some?
  {
    var x := p + 10;
    var q, r, k, z := RenderPieces(t, x, m);
    PathPieces(t, x, q, m.path);
    var a := AfterPathPieces(t, q, r, k, z, m.resolution, m.objects, m.elapsed);
    var found := Least(r + 2, LineEnd(t, r + 1), TerminatesAt(t));
    AfterPathIs(t, q, a, r, found);
    MatchAtOf(t, p, q, AfterPath(t, q).value);
  }

  /**
   * A header followed by a rendered match is matched exactly when no `: ` starts inside
   * its path and no terminator inside its object text: the groups come back unchanged
   * and the match ends where the rendering ends.
   */
  lemma MatchAtExact(t: string, p: nat, m: Match) returns (e: nat)
    requires HeaderAt(t, p) && WellFormed(m) && NoColonSpace(m.path) && NoTerminator(m.objects)
    requires p + 10 + |Render(m)| <= |t| && t[p + 10..p + 10 + |Render(m)|] == Render(m)
    ensures e == p + 10 + |Render(m)| && MatchAt(t, p) == Some((m, e))
  {
    var q, r, k, z := RenderPieces(t, p + 10, m);
    e := z + 2;
    ExactFrom(t, p, q, r, k, z, e, m);
  }

  /** `MatchAt` on a header followed by the groups of `m` and the literal text between them. */
  lemma ExactFrom(t: string, p: nat, q: nat, r: nat, k: nat, z: nat, e: nat, m: Match)
    requires HeaderAt(t, p) && WellFormed(m) && NoColonSpace(m.path) && NoTerminator(m.objects)
    requires p + 10 <= q && q + 2 <= r && r + 1 < k && k + 2 <= z && z + 2 == e <= |t|
    requires t[p + 10..q] == m.path && t[q] == ':' && t[q + 1] == ' ' && t[q + 2..r] == m.resolution && t[r] == ' '
    requires t[r + 1..k] == m.objects && t[k] == ',' && t[k + 1] == ' ' && t[k + 2..z] == m.elapsed
    requires t[z] == 'm' && t[z + 1] == 's'
    ensures MatchAt(t, p) == Some((m, e))
  {
    PathPieces(t, p + 10, q, m.path);
    var g := ExactSpans(t, q, r, k, z, e, m);
    MatchAtOf(t, p, q, g);
    GroupsAre(t, p + 10, q, r, k, z, e, m);
  }

  /** What `AfterPath` finds after the path of a laid-out match. */
  lemma ExactSpans(t: string, q: nat, r: nat, k: nat, z: nat, e: nat, m: Match) returns (g: Spans)
    requires WellFormed(m) && NoTerminator(m.objects)
    requires q + 2 <= r && r + 1 < k && k + 2 <= z && z + 2 == e <= |t|
    requires t[q] == ':' && t[q + 1] == ' ' && t[q + 2..r] == m.resolution && t[r] == ' '
    requires t[r + 1..k] == m.objects && t[k] == ',' && t[k + 1] == ' ' && t[k + 2..z] == m.elapsed
    requires t[z] == 'm' && t[z + 1] == 's'
    ensures g == Spans(r, k, e) && AfterPath(t, q) == Some(g)
  {
    var a := AfterPathPieces(t, q, r, k, z, m.resolution, m.objects, m.elapsed);
    g := Spans(r, k, e);
    AfterPathExact(t, q, a, r, k, e);
  }

  lemma GroupsAre(t: string, x: nat, q: nat, r: nat, k: nat, z: nat, e: nat, m: Match)
    requires x <= q && q + 2 < r && r + 1 < k && k + 5 <= z && z + 2 == e <= |t|
    requires t[x..q] == m.path && t[q + 2..r] == m.resolution && t[r + 1..k] == m.objects && t[k + 2..z] == m.elapsed
    ensures Groups(t, x, q, Spans(r, k, e)) == m
  {
  }

  // ---------------------------------------------------------------------------
  // The whole scan
  // ---------------------------------------------------------------------------

  /** `m` is an instance of the pattern starting at `s`, inside the line that holds `s`. */
  predicate FoundAt(t: string, s: nat, m: Match) {
    HeaderAt(t, s) && WellFormed(m) && s + 10 + |Render(m)| <= LineEnd(t, s) <= |t| &&
    t[s + 10..s + 10 + |Render(m)|] == Render(m)
  }

  /**
   * `ms` are instances of the pattern at the positions `starts`, in order: the first at
   * or after `p`, and each of the others at or after the end of the one before.
   */
  predicate AllFound(t: string, p: nat, starts: seq<nat>, ms: seq<Match>)
    decreases |starts|
  {
    |starts| == |ms| &&
    (|starts| > 0 ==>
      p <= starts[0] && FoundAt(t, starts[0], ms[0]) &&
      AllFound(t, starts[0] + 10 + |Render(ms[0])|, starts[1..], ms[1..]))
  }

  lemma AllFoundCons(t: string, p: nat, m: Match, e: nat, starts: seq<nat>, ms: seq<Match>)
    requires FoundAt(t, p, m) && e == p + 10 + |Render(m)| && AllFound(t, e, starts, ms)
    ensures AllFound(t, p, [p] + starts, [m] + ms)
  {
    assert ([p] + starts)[1..] == starts && ([m] + ms)[1..] == ms;
  }

  lemma AllFoundLater(t: string, p: nat, starts: seq<nat>, ms: seq<Match>)
    requires AllFound(t, p + 1, starts, ms)
    ensures AllFound(t, p, starts, ms)
  {
  }

  lemma FoundAtSound(t: string, p: nat) returns (m: Match, e: nat)
    requires MatchAt(t, p).Some?
    ensures MatchAt(t, p) == Some((m, e)) && FoundAt(t, p, m) && e == p + 10 + |Render(m)|
  {
    m, e := MatchAtSound(t, p);
    LineEndCovers(t, p);
  }

  /**
   * What `re.findall` returns, in order: the i-th match is an instance of the pattern at
   * `starts[i]`, within one line, and the next match starts no earlier than where it ends.
   */
  lemma {:induction false} FindAllSound(t: string, p: nat) returns (starts: seq<nat>)
    requires p <= |t|
    ensures AllFound(t, p, starts, FindAll(t, p))
    decreases |t| - p
  {
    if p == |t| {
      starts := [];
    } else if MatchAt(t, p).None? {
      starts := FindAllSound(t, p + 1);
      AllFoundLater(t, p, starts, FindAll(t, p + 1));
    } else {
      var m, e := FoundAtSound(t, p);
      var rest := FindAllSound(t, e);
      AllFoundCons(t, p, m, e, rest, FindAll(t, e));
      starts := [p] + rest;
    }
  }

  /** Text with no `image i/n ` header at or after `p` yields no match there. */
  lemma {:induction false} NoHeaderNoMatch(t: string, p: nat)
    requires p <= |t| && forall s :: p <= s <= |t| ==> !HeaderAt(t, s)
    ensures FindAll(t, p) == []
    decreases |t| - p
  {
    if p < |t| {
      assert MatchAt(t, p).None?;
      NoHeaderNoMatch(t, p + 1);
    }
  }
}
