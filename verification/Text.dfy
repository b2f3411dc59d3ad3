/** Text normalisation shared by ingestion and output: JavaScript white space, the
    regular-expression run replacements `/[\r\n]+/g` and `/\s+/g`, and `String.prototype.trim`. */
module Text {

  /** The characters matched by JavaScript's `\s` and removed by `trim()`:
      the ECMAScript WhiteSpace and LineTerminator code points. */
  predicate IsSpace(c: char) {
    var n := c as int;
    (9 <= n <= 13) || n == 0x20 || n == 0xA0 || n == 0x1680 || (0x2000 <= n <= 0x200A)
    || n == 0x2028 || n == 0x2029 || n == 0x202F || n == 0x205F || n == 0x3000 || n == 0xFEFF
  }

  /** The class `[\r\n]`. */
  predicate IsLineBreak(c: char) {
    c == '\r' || c == '\n'
  }

  /** The two character classes whose runs `processCSV` replaces by one space. */
  datatype CharClass = LineBreaks | Spaces

  predicate InClass(c: char, k: CharClass) {
    match k
    case LineBreaks => IsLineBreak(c)
    case Spaces => IsSpace(c)
  }

  predicate NoneIn(s: string, k: CharClass) {
    forall i :: 0 <= i < |s| ==> !InClass(s[i], k)
  }

  /** No leading and no trailing white space. */
  predicate Trimmed(s: string) {
    s == [] || (!IsSpace(s[0]) && !IsSpace(s[|s| - 1]))
  }

  /** Every white-space character is a plain space and no two of them are adjacent. */
  predicate SingleSpaced(s: string) {
    (forall i :: 0 <= i < |s| && IsSpace(s[i]) ==> s[i] == ' ')
    && (forall i :: 0 <= i < |s| - 1 && IsSpace(s[i]) ==> !IsSpace(s[i + 1]))
  }

  /** Every class-`k` character is a plain space and no two of them are adjacent. */
  predicate RunsCollapsed(s: string, k: CharClass) {
    (forall i :: 0 <= i < |s| && InClass(s[i], k) ==> s[i] == ' ')
    && (forall i :: 0 <= i < |s| - 1 && InClass(s[i], k) ==> !InClass(s[i + 1], k))
  }

  /** `s[i..j]` is what is left of `s` once white space is removed at both ends. */
  ghost predicate PaddedCore(s: string, i: int, j: int) {
    0 <= i <= j <= |s|
    && (forall k :: 0 <= k < i ==> IsSpace(s[k]))
    && (forall k :: j <= k < |s| ==> IsSpace(s[k]))
  }

  /** Drops the maximal prefix of characters of class `k`. */
  function DropRun(s: string, k: CharClass): (r: string)
    ensures |r| <= |s| && r == s[|s| - |r|..]
    ensures forall i :: 0 <= i < |s| - |r| ==> InClass(s[i], k)
    ensures r == [] || !InClass(r[0], k)
  {
    if s != [] && InClass(s[0], k) then DropRun(s[1..], k) else s
  }

  /** `s.replace(/[class]+/g, ' ')`: every maximal run of class-`k` characters becomes one space
      (see `CollapseLayout` and `CollapseRun`). */
  function Collapse(s: string, k: CharClass): (r: string)
    ensures |r| <= |s|
    ensures r == [] <==> s == []
    ensures s != [] && !InClass(s[0], k) ==> r[0] == s[0]
    ensures s != [] && InClass(s[0], k) ==> r[0] == ' '
    decreases |s|
  {
    if s == [] then []
    else if InClass(s[0], k) then [' '] + Collapse(DropRun(s[1..], k), k)
    else [s[0]] + Collapse(s[1..], k)
  }

  /** `trimEnd()` */
  function TrimEnd(s: string): (r: string)
    ensures |r| <= |s| && r == s[..|r|]
    ensures forall i :: |r| <= i < |s| ==> IsSpace(s[i])
    ensures r == [] || !IsSpace(r[|r| - 1])
  {
    if s != [] && IsSpace(s[|s| - 1]) then TrimEnd(s[..|s| - 1]) else s
  }

  /** `trim()`: white space removed at both ends, nothing else touched. */
  function Trim(s: string): (r: string)
    ensures Trimmed(r)
    ensures exists i, j :: PaddedCore(s, i, j) && r == s[i..j]
  {
    var t := DropRun(s, Spaces);
    var r := TrimEnd(t);
    assert PaddedCore(s, |s| - |t|, |s| - |t| + |r|);
    assert r == s[|s| - |t|..|s| - |t| + |r|];
    r
  }

  /** The parser's cell transform: line-break runs to one space, then trimmed. */
  function CellTransform(value: string): (r: string)
    ensures NoneIn(r, LineBreaks)
    ensures Trimmed(r)
  {
    var c := Collapse(value, LineBreaks);
    CollapseLayout(value, LineBreaks);
    TrimKeepsLayout(c);
    Trim(c)
  }

  /** The output cleaner's white-space step (everything it does before NFC). */
  function CleanText(value: string): (r: string)
    ensures NoneIn(r, LineBreaks)
    ensures SingleSpaced(r)
    ensures Trimmed(r)
  {
    var c := Collapse(Collapse(value, LineBreaks), Spaces);
    SpacesCollapsedLayout(Collapse(value, LineBreaks));
    TrimKeepsLayout(c);
    Trim(c)
  }

  // ---------------------------------------------------------------- lemmas

  /** Whatever the input, the replacement leaves every class-`k` character a plain space and
      none of them next to another. */
  lemma {:induction false} CollapseLayout(s: string, k: CharClass)
    ensures RunsCollapsed(Collapse(s, k), k)
    decreases |s|
  {
    if s != [] {
      if InClass(s[0], k) {
        var t := DropRun(s[1..], k);
        CollapseLayout(t, k);
        ConsRunsCollapsed(' ', Collapse(t, k), k);
      } else {
        CollapseLayout(s[1..], k);
        ConsRunsCollapsed(s[0], Collapse(s[1..], k), k);
      }
    }
  }

  lemma ConsRunsCollapsed(c: char, rest: string, k: CharClass)
    requires RunsCollapsed(rest, k)
    requires InClass(c, k) ==> c == ' ' && (rest == [] || !InClass(rest[0], k))
    ensures RunsCollapsed([c] + rest, k)
  {
    var r := [c] + rest;
    forall i | 1 <= i < |r| ensures r[i] == rest[i - 1] {}
  }

  /** After `/\s+/g -> ' '` the text is single-spaced and, line breaks being white space, has none. */
  lemma SpacesCollapsedLayout(s: string)
    ensures SingleSpaced(Collapse(s, Spaces))
    ensures NoneIn(Collapse(s, Spaces), LineBreaks)
  {
    CollapseLayout(s, Spaces);
  }

  /** Trimming only cuts text off the ends, so it keeps every per-character layout property. */
  lemma TrimKeepsLayout(c: string)
    ensures NoneIn(c, LineBreaks) ==> NoneIn(Trim(c), LineBreaks)
    ensures RunsCollapsed(c, LineBreaks) ==> NoneIn(Trim(c), LineBreaks)
    ensures SingleSpaced(c) ==> SingleSpaced(Trim(c))
  {
    var r := Trim(c);
    var a, b :| PaddedCore(c, a, b) && r == c[a..b];
    SliceKeepsLayout(c, a, b);
  }

  lemma SliceKeepsLayout(c: string, a: int, b: int)
    requires 0 <= a <= b <= |c|
    ensures NoneIn(c, LineBreaks) ==> NoneIn(c[a..b], LineBreaks)
    ensures RunsCollapsed(c, LineBreaks) ==> NoneIn(c[a..b], LineBreaks)
    ensures SingleSpaced(c) ==> SingleSpaced(c[a..b])
  {
    var r := c[a..b];
    if RunsCollapsed(c, LineBreaks) {
      forall i | 0 <= i < |r| ensures !InClass(r[i], LineBreaks) {
        assert r[i] == c[a + i];
      }
    }
    if NoneIn(c, LineBreaks) {
      forall i | 0 <= i < |r| ensures !InClass(r[i], LineBreaks) {
        assert r[i] == c[a + i];
      }
    }
    if SingleSpaced(c) {
      forall i | 0 <= i < |r| && IsSpace(r[i]) ensures r[i] == ' ' {
        assert r[i] == c[a + i];
      }
      forall i | 0 <= i < |r| - 1 && IsSpace(r[i]) ensures !IsSpace(r[i + 1]) {
        assert r[i] == c[a + i] && r[i + 1] == c[a + i + 1];
      }
    }
  }

  lemma {:induction false} DropRunAll(run: string, q: string, k: CharClass)
    requires forall i :: 0 <= i < |run| ==> InClass(run[i], k)
    requires q == [] || !InClass(q[0], k)
    ensures DropRun(run + q, k) == q
    decreases |run|
  {
    if run == [] {
      assert run + q == q;
    } else {
      assert (run + q)[1..] == run[1..] + q;
      DropRunAll(run[1..], q, k);
    }
  }

  /** A string without class-`k` characters is left as it is. */
  lemma {:induction false} CollapseNoneIn(s: string, k: CharClass)
    requires NoneIn(s, k)
    ensures Collapse(s, k) == s
    decreases |s|
  {
    if s != [] {
      CollapseNoneIn(s[1..], k);
    }
  }

  /** Each maximal run is replaced by exactly one space: a run-free prefix `p` is kept,
      the run that follows it becomes `' '`, and the rest is processed in turn. */
  lemma {:induction false} CollapseRun(p: string, run: string, q: string, k: CharClass)
    requires NoneIn(p, k)
    requires run != [] && forall i :: 0 <= i < |run| ==> InClass(run[i], k)
    requires q == [] || !InClass(q[0], k)
    ensures Collapse(p + run + q, k) == p + [' '] + Collapse(q, k)
    decreases |p|
  {
    if p == [] {
      assert p + run + q == run + q;
      CollapseLeadingRun(run, q, k);
    } else {
      ConsSplit(p, run, q);
      CollapseKeepsHead(p[0], p[1..] + run + q, k);
      CollapseRun(p[1..], run, q, k);
      ConsSplit(p, [' '], Collapse(q, k));
    }
  }

  /** Splitting off the first element of the leading part of a concatenation. */
  lemma ConsSplit<T>(p: seq<T>, m: seq<T>, x: seq<T>)
    requires p != []
    ensures p + m + x == [p[0]] + (p[1..] + m + x)
  {
    assert p == [p[0]] + p[1..];
  }

  /** A leading run becomes one space. */
  lemma CollapseLeadingRun(run: string, q: string, k: CharClass)
    requires run != [] && forall i :: 0 <= i < |run| ==> InClass(run[i], k)
    requires q == [] || !InClass(q[0], k)
    ensures Collapse(run + q, k) == [' '] + Collapse(q, k)
  {
    HeadTail(run, q);
    DropRunAll(run[1..], q, k);
  }

  lemma HeadTail<T>(a: seq<T>, b: seq<T>)
    requires a != []
    ensures (a + b)[0] == a[0] && (a + b)[1..] == a[1..] + b
  {
  }

  /** A first character outside the class is kept. */
  lemma CollapseKeepsHead(c: char, t: string, k: CharClass)
    requires !InClass(c, k)
    ensures Collapse([c] + t, k) == [c] + Collapse(t, k)
  {
    assert ([c] + t)[0] == c && ([c] + t)[1..] == t;
  }

  /** Already single-spaced text passes `/\s+/g -> ' '` unchanged. */
  lemma {:induction false} CollapseSingleSpaced(s: string)
    requires SingleSpaced(s)
    ensures Collapse(s, Spaces) == s
    decreases |s|
  {
    if s != [] {
      assert SingleSpaced(s[1..]);
      if IsSpace(s[0]) {
        assert DropRun(s[1..], Spaces) == s[1..];
      }
      CollapseSingleSpaced(s[1..]);
    }
  }

  /** `trim()` leaves trimmed text unchanged. */
  lemma TrimTrimmed(s: string)
    requires Trimmed(s)
    ensures Trim(s) == s
  {
    assert DropRun(s, Spaces) == s;
    assert TrimEnd(s) == s;
  }

  /** The cell transform is idempotent, and `?.trim()` of a transformed cell changes nothing. */
  lemma CellTransformIdempotent(value: string)
    ensures CellTransform(CellTransform(value)) == CellTransform(value)
    ensures Trim(CellTransform(value)) == CellTransform(value)
  {
    var r := CellTransform(value);
    CollapseNoneIn(r, LineBreaks);
    TrimTrimmed(r);
  }

  /** The output cleaner's white-space step is idempotent. */
  lemma CleanTextIdempotent(value: string)
    ensures CleanText(CleanText(value)) == CleanText(value)
  {
    var r := CleanText(value);
    CollapseNoneIn(r, LineBreaks);
    CollapseSingleSpaced(r);
    TrimTrimmed(r);
  }
}
