/**
 * The position tracker: a cursor (file, line, column) over one named source,
 * moved forward over consumed text, and able to emit the fragments of a piece
 * of text line by line at the positions where they start.
 */
module PositionTracking {
  import opened Wrappers
  import opened SourceNodes

  /** A place in a text: lines count from 1, columns from 0. */
  datatype Cursor = Cursor(line: int, column: int)

  // ---------------------------------------------------------------------------
  // Moving a cursor forward over text

  /** `s.split(/\n/)`: the lines of `s` without their line breaks ("" has one empty line). */
  function Split(s: string): (lines: seq<string>)
    ensures |lines| >= 1
  {
    if s == [] then [[]]
    else
      var init := Split(s[..|s| - 1]);
      if s[|s| - 1] == '\n' then init + [[]]
      else init[..|init| - 1] + [init[|init| - 1] + [s[|s| - 1]]]
  }

  /** The inverse of Split: the lines joined with line breaks. */
  function Join(lines: seq<string>): string
    requires |lines| >= 1
  {
    if |lines| == 1 then lines[0] else Join(lines[..|lines| - 1]) + ['\n'] + lines[|lines| - 1]
  }

  /** The number of line breaks in `s`. */
  function LineBreaks(s: string): nat
  {
    if s == [] then 0
    else LineBreaks(s[..|s| - 1]) + if s[|s| - 1] == '\n' then 1 else 0
  }

  /** The length of the text after the last line break of `s` (|s| when it has none). */
  function TailLength(s: string): nat
  {
    if s == [] then 0
    else if s[|s| - 1] == '\n' then 0
    else TailLength(s[..|s| - 1]) + 1
  }

  /** The cursor after one more character: a line break starts the next line at column 0. */
  function Step(c: Cursor, ch: char): Cursor
  {
    if ch == '\n' then Cursor(c.line + 1, 0) else Cursor(c.line, c.column + 1)
  }

  /** Where a cursor standing at `c` ends up after `s`, taken one character at a time. */
  function Forwarded(c: Cursor, s: string): Cursor
  {
    if s == [] then c else Step(Forwarded(c, s[..|s| - 1]), s[|s| - 1])
  }

  /** A cursor that counts lines from 1 and columns from 0 keeps doing so: lines never go back. */
  lemma {:induction false} ForwardedBounds(c: Cursor, s: string)
    requires c.line >= 1 && c.column >= 0
    ensures Forwarded(c, s).line >= c.line && Forwarded(c, s).column >= 0
  {
    if s != [] {
      ForwardedBounds(c, s[..|s| - 1]);
    }
  }

  /**
   * `forward`'s arithmetic on `s.split(/\n/)` computes Forwarded: with no line
   * break the column grows by |s|; otherwise the line grows by the number of
   * line breaks (|lines| - 1, see SplitCounts) and the column becomes the
   * length of the last line.
   */
  lemma {:induction false} ForwardedArithmetic(c: Cursor, s: string)
    ensures Forwarded(c, s) == if LineBreaks(s) == 0 then Cursor(c.line, c.column + |s|)
                               else Cursor(c.line + LineBreaks(s), TailLength(s))
  {
    if s != [] {
      ForwardedArithmetic(c, s[..|s| - 1]);
    }
  }

  /** Splitting loses nothing: joining the lines gives the text back. */
  lemma {:induction false} SplitJoin(s: string)
    ensures Join(Split(s)) == s
  {
    if s != [] {
      var p, ch := s[..|s| - 1], s[|s| - 1];
      assert s == p + [ch];
      SplitJoin(p);
      var init := Split(p);
      var n := |init|;
      if ch == '\n' {
        assert Split(s) == init + [[]];
        assert Split(s)[..|Split(s)| - 1] == init;
      } else {
        var last := init[n - 1] + [ch];
        assert Split(s) == init[..n - 1] + [last];
        if n == 1 {
          assert Join(Split(s)) == last;
        } else {
          assert Split(s)[..|Split(s)| - 1] == init[..n - 1];
          assert Join(init) == Join(init[..n - 1]) + ['\n'] + init[n - 1];
        }
      }
    }
  }

  /** No line of Split(s) holds a line break. */
  lemma {:induction false} SplitLines(s: string)
    ensures forall k :: 0 <= k < |Split(s)| ==> '\n' !in Split(s)[k]
  {
    if s != [] {
      var p, ch := s[..|s| - 1], s[|s| - 1];
      SplitLines(p);
      var init := Split(p);
      var n := |init|;
      if ch != '\n' {
        assert Split(s) == init[..n - 1] + [init[n - 1] + [ch]];
        forall k | 0 <= k < |Split(s)|
          ensures '\n' !in Split(s)[k]
        {
          if k < n - 1 {
            assert Split(s)[k] == init[k];
          } else {
            assert '\n' !in init[n - 1];
          }
        }
      }
    }
  }

  /**
   * `forward`'s two numbers: Split(s) has one more line than `s` has line
   * breaks, and its last line is as long as the text after the last line break.
   */
  lemma {:induction false} SplitCounts(s: string)
    ensures |Split(s)| == LineBreaks(s) + 1
    ensures |Split(s)[|Split(s)| - 1]| == TailLength(s)
  {
    if s != [] {
      SplitCounts(s[..|s| - 1]);
    }
  }

  /** LineBreaks counts the occurrences of '\n'. */
  lemma {:induction false} LineBreaksCount(s: string)
    ensures LineBreaks(s) == multiset(s)['\n']
  {
    if s != [] {
      var p := s[..|s| - 1];
      assert s == p + [s[|s| - 1]];
      LineBreaksCount(p);
    }
  }

  /** Line breaks and the last line's length of a concatenation, from those of its parts. */
  lemma {:induction false} CountsAppend(a: string, b: string)
    ensures LineBreaks(a + b) == LineBreaks(a) + LineBreaks(b)
    ensures TailLength(a + b) == if LineBreaks(b) == 0 then TailLength(a) + |b| else TailLength(b)
  {
    if b == [] {
      assert a + b == a;
    } else {
      var b', ch := b[..|b| - 1], b[|b| - 1];
      assert b == b' + [ch];
      assert (a + b)[..|a + b| - 1] == a + b';
      assert (a + b)[|a + b| - 1] == ch;
      CountsAppend(a, b');
    }
  }

  /** Text without a line break has no line break to count, and its last line is all of it. */
  lemma {:induction false} CountsNoNewline(s: string)
    requires '\n' !in s
    ensures LineBreaks(s) == 0 && TailLength(s) == |s|
  {
    if s != [] {
      assert s[|s| - 1] in s;
      var p := s[..|s| - 1];
      assert forall x :: x in p ==> x in s;
      CountsNoNewline(p);
    }
  }

  /** Moving over `a` and then over `b` is moving over `a + b`. */
  lemma {:induction false} ForwardedConcat(c: Cursor, a: string, b: string)
    ensures Forwarded(Forwarded(c, a), b) == Forwarded(c, a + b)
  {
    if b == [] {
      assert a + b == a;
    } else {
      var b' := b[..|b| - 1];
      assert (a + b)[..|a + b| - 1] == a + b';
      assert (a + b)[|a + b| - 1] == b[|b| - 1];
      ForwardedConcat(c, a, b');
    }
  }

  /** Without a line break only the column moves, by the length of the text; empty text moves nothing. */
  lemma ForwardedNoNewline(c: Cursor, s: string)
    requires '\n' !in s
    ensures Forwarded(c, s) == Cursor(c.line, c.column + |s|)
    ensures s == [] ==> Forwarded(c, s) == c
  {
    CountsNoNewline(s);
    ForwardedArithmetic(c, s);
  }

  /**
   * With line breaks the line grows by their number and the column becomes the
   * length of what follows the last of them.
   */
  lemma ForwardedLastNewline(c: Cursor, p: string, q: string)
    requires '\n' !in q
    ensures Forwarded(c, p + ['\n'] + q) == Cursor(c.line + multiset(p)['\n'] + 1, |q|)
  {
    LineBreaksCount(p);
    CountsNoNewline(q);
    CountsAppend(p, ['\n']);
    CountsAppend(p + ['\n'], q);
    assert ['\n'][..0] == [];
    ForwardedArithmetic(c, p + ['\n'] + q);
  }

  // ---------------------------------------------------------------------------
  // Cutting text into line segments

  /** The first line break at or after `from`: `lineMatcher.exec(s)` with its `lastIndex` at `from`. */
  function NewlineAt(s: string, from: nat): (r: Option<nat>)
    requires from <= |s|
    decreases |s| - from
    ensures r.Some? ==> from <= r.value < |s|
  {
    if from == |s| then None
    else if s[from] == '\n' then Some(from)
    else NewlineAt(s, from + 1)
  }

  /** NewlineAt finds the leftmost line break at or after `from`, or reports that there is none. */
  lemma {:induction false} NewlineAtLeftmost(s: string, from: nat)
    requires from <= |s|
    decreases |s| - from
    ensures NewlineAt(s, from).Some? ==>
      s[NewlineAt(s, from).value] == '\n' && '\n' !in s[from..NewlineAt(s, from).value]
    ensures NewlineAt(s, from).None? ==> '\n' !in s[from..]
  {
    if from < |s| && s[from] != '\n' {
      NewlineAtLeftmost(s, from + 1);
      var r := NewlineAt(s, from + 1);
      assert r.Some? ==> s[from..r.value] == [s[from]] + s[from + 1..r.value];
      assert s[from..] == [s[from]] + s[from + 1..];
    }
  }

  /** The `\n`-terminated pieces of s[from..] that `add` maps one at a time; the last may lack its `\n`. */
  function Segments(s: string, from: nat): seq<string>
    requires from <= |s|
    decreases |s| - from
  {
    match NewlineAt(s, from)
    case Some(i) => [s[from..i + 1]] + Segments(s, i + 1)
    case None => if from < |s| then [s[from..]] else []
  }

  /** The strings of `ss` one after the other. */
  function Concat(ss: seq<string>): string
  {
    if ss == [] then [] else ss[0] + Concat(ss[1..])
  }

  /** A piece mapped as one fragment: not empty, and a line break at most as its last character. */
  predicate IsLineSegment(seg: string)
  {
    seg != [] && '\n' !in seg[..|seg| - 1]
  }

  /** A segment that ends in a line break. */
  predicate EndsWithNewline(seg: string)
  {
    seg != [] && seg[|seg| - 1] == '\n'
  }

  /** The segments tile s[from..] exactly, and there are none only when nothing is left. */
  lemma {:induction false} SegmentsTile(s: string, from: nat)
    requires from <= |s|
    decreases |s| - from
    ensures Concat(Segments(s, from)) == s[from..]
    ensures s[from..] == [] <==> Segments(s, from) == []
  {
    match NewlineAt(s, from)
    case Some(i) =>
      SegmentsTile(s, i + 1);
      assert s[from..] == s[from..i + 1] + s[i + 1..];
    case None =>
      if from < |s| {
        assert Segments(s, from) == [s[from..]];
        assert Concat([s[from..]]) == s[from..] + [];
      }
  }

  /**
   * Each segment holds at most one line break and only at its end, and every
   * segment but the last ends in a line break.
   */
  lemma {:induction false} SegmentsShape(s: string, from: nat)
    requires from <= |s|
    decreases |s| - from
    ensures forall k :: 0 <= k < |Segments(s, from)| ==> IsLineSegment(Segments(s, from)[k])
    ensures forall k :: 0 <= k < |Segments(s, from)| - 1 ==> EndsWithNewline(Segments(s, from)[k])
  {
    var segs := Segments(s, from);
    NewlineAtLeftmost(s, from);
    match NewlineAt(s, from)
    case Some(i) =>
      var seg := s[from..i + 1];
      SegmentsShape(s, i + 1);
      assert seg[..|seg| - 1] == s[from..i];
      assert segs[1..] == Segments(s, i + 1);
      forall k | 0 < k < |segs|
        ensures IsLineSegment(segs[k])
      {
        assert segs[k] == Segments(s, i + 1)[k - 1];
      }
      forall k | 0 < k < |segs| - 1
        ensures EndsWithNewline(segs[k])
      {
        assert segs[k] == Segments(s, i + 1)[k - 1];
      }
    case None =>
      if from < |s| {
        assert segs == [s[from..]];
        assert s[from..][..|s[from..]| - 1] == s[from..|s| - 1];
      }
  }

  /** A segment that ends in its one line break moves the cursor to the start of the next line. */
  lemma ForwardedOverLine(c: Cursor, seg: string)
    requires IsLineSegment(seg) && EndsWithNewline(seg)
    ensures Forwarded(c, seg) == Cursor(c.line + 1, 0)
  {
    var p := seg[..|seg| - 1];
    assert seg == p + ['\n'] + [];
    ForwardedLastNewline(c, p, []);
    assert multiset(p)['\n'] == 0;
  }

  // ---------------------------------------------------------------------------
  // Emitting fragments

  /** One fragment per segment, each at the cursor moved over the segments before it. */
  function Place(file: Option<string>, c: Cursor, segs: seq<string>): seq<Fragment>
    decreases |segs|
  {
    if segs == [] then []
    else [Fragment(c.line, c.column, file, segs[0])] + Place(file, Forwarded(c, segs[0]), segs[1..])
  }

  /**
   * The fragments `add` appends for s[from..] when the cursor of `file` stands
   * at `c`: the text up to and including the next line break at the cursor, then
   * the rest with the cursor moved over that text.
   */
  function EmitFrom(file: Option<string>, c: Cursor, s: string, from: nat): seq<Fragment>
    requires from <= |s|
    decreases |s| - from
  {
    match NewlineAt(s, from)
    case Some(i) =>
      [Fragment(c.line, c.column, file, s[from..i + 1])] + EmitFrom(file, Forwarded(c, s[from..i + 1]), s, i + 1)
    case None =>
      if from < |s| then [Fragment(c.line, c.column, file, s[from..])] else []
  }

  /** The fragments `add` appends for `content` when the cursor of `file` stands at `c`. */
  function Emit(file: Option<string>, c: Cursor, content: string): seq<Fragment>
  {
    EmitFrom(file, c, content, 0)
  }

  /** Emitting is placing one fragment per segment. */
  lemma {:induction false} EmitFromPlace(file: Option<string>, c: Cursor, s: string, from: nat)
    requires from <= |s|
    decreases |s| - from
    ensures EmitFrom(file, c, s, from) == Place(file, c, Segments(s, from))
  {
    match NewlineAt(s, from)
    case Some(i) =>
      EmitFromPlace(file, Forwarded(c, s[from..i + 1]), s, i + 1);
    case None =>
  }

  lemma {:induction false} PlaceShape(file: Option<string>, c: Cursor, segs: seq<string>)
    decreases |segs|
    ensures |Place(file, c, segs)| == |segs|
    ensures forall k :: 0 <= k < |segs| ==>
      Place(file, c, segs)[k].text == segs[k] && Place(file, c, segs)[k].source == file
    ensures Texts(Place(file, c, segs)) == Concat(segs)
  {
    if segs != [] {
      PlaceShape(file, Forwarded(c, segs[0]), segs[1..]);
      var rest := Place(file, Forwarded(c, segs[0]), segs[1..]);
      assert Place(file, c, segs)[1..] == rest;
      forall k | 1 <= k < |segs|
        ensures Place(file, c, segs)[k].text == segs[k] && Place(file, c, segs)[k].source == file
      {
        assert Place(file, c, segs)[k] == rest[k - 1];
      }
    }
  }

  lemma {:induction false} PlaceLength(file: Option<string>, c: Cursor, segs: seq<string>)
    decreases |segs|
    ensures |Place(file, c, segs)| == |segs|
  {
    if segs != [] {
      PlaceLength(file, Forwarded(c, segs[0]), segs[1..]);
    }
  }

  /** Fragment k of Place stands where the cursor is after the segments before it. */
  lemma {:induction false} PlaceAt(file: Option<string>, c: Cursor, segs: seq<string>, k: nat)
    decreases k
    requires k < |segs|
    ensures |Place(file, c, segs)| == |segs|
    ensures Cursor(Place(file, c, segs)[k].line, Place(file, c, segs)[k].column) == Forwarded(c, Concat(segs[..k]))
  {
    PlaceLength(file, c, segs);
    if k == 0 {
      ForwardedNoNewline(c, []);
    } else {
      var c' := Forwarded(c, segs[0]);
      var before := segs[1..][..k - 1];
      PlaceAt(file, c', segs[1..], k - 1);
      assert Place(file, c, segs)[k] == Place(file, c', segs[1..])[k - 1];
      assert segs[..k] == [segs[0]] + before;
      assert ([segs[0]] + before)[1..] == before;
      assert Concat(segs[..k]) == segs[0] + Concat(before);
      ForwardedConcat(c, segs[0], Concat(before));
    }
  }

  /** Consecutive line segments after the first start at column 0 of the next line. */
  lemma {:induction false} PlaceLayout(file: Option<string>, c: Cursor, segs: seq<string>)
    decreases |segs|
    requires forall k :: 0 <= k < |segs| ==> IsLineSegment(segs[k])
    requires forall k :: 0 <= k < |segs| - 1 ==> EndsWithNewline(segs[k])
    ensures |Place(file, c, segs)| == |segs|
    ensures segs != [] ==> Place(file, c, segs)[0].line == c.line && Place(file, c, segs)[0].column == c.column
    ensures forall k :: 0 < k < |segs| ==>
      Place(file, c, segs)[k].line == Place(file, c, segs)[k - 1].line + 1 && Place(file, c, segs)[k].column == 0
  {
    PlaceShape(file, c, segs);
    if |segs| > 1 {
      var c' := Forwarded(c, segs[0]);
      ForwardedOverLine(c, segs[0]);
      PlaceLayout(file, c', segs[1..]);
      var all, rest := Place(file, c, segs), Place(file, c', segs[1..]);
      assert all[1..] == rest;
      forall k | 0 < k < |segs|
        ensures all[k].line == all[k - 1].line + 1 && all[k].column == 0
      {
        assert all[k] == rest[k - 1];
        if k > 1 { assert all[k - 1] == rest[k - 2]; }
      }
    }
  }

  /** What `add` emits spells out exactly `content`; empty content emits nothing. */
  lemma EmitTexts(file: Option<string>, c: Cursor, content: string)
    ensures Texts(Emit(file, c, content)) == content
    ensures content == [] <==> Emit(file, c, content) == []
  {
    var segs := Segments(content, 0);
    EmitFromPlace(file, c, content, 0);
    SegmentsTile(content, 0);
    PlaceShape(file, c, segs);
    assert content[0..] == content;
  }

  /**
   * Every emitted fragment is from `file` and is a line segment, and every one
   * but the last ends in a line break.
   */
  lemma EmitShape(file: Option<string>, c: Cursor, content: string)
    ensures forall k :: 0 <= k < |Emit(file, c, content)| ==>
      Emit(file, c, content)[k].source == file && IsLineSegment(Emit(file, c, content)[k].text)
    ensures forall k :: 0 <= k < |Emit(file, c, content)| - 1 ==> EndsWithNewline(Emit(file, c, content)[k].text)
  {
    var segs := Segments(content, 0);
    EmitFromPlace(file, c, content, 0);
    SegmentsShape(content, 0);
    PlaceShape(file, c, segs);
  }

  /** The first emitted fragment is at `c`, each later one at column 0 of the line after the previous one. */
  lemma EmitLayout(file: Option<string>, c: Cursor, content: string)
    ensures Emit(file, c, content) != [] ==>
      Emit(file, c, content)[0].line == c.line && Emit(file, c, content)[0].column == c.column
    ensures forall k :: 0 < k < |Emit(file, c, content)| ==>
      Emit(file, c, content)[k].line == Emit(file, c, content)[k - 1].line + 1 &&
      Emit(file, c, content)[k].column == 0
  {
    var segs := Segments(content, 0);
    EmitFromPlace(file, c, content, 0);
    SegmentsShape(content, 0);
    PlaceLayout(file, c, segs);
  }

  /** Non-empty text without a line break is emitted as one fragment at the cursor. */
  lemma EmitOneLine(file: Option<string>, c: Cursor, s: string)
    requires s != [] && '\n' !in s
    ensures Emit(file, c, s) == [Fragment(c.line, c.column, file, s)]
  {
    NewlineAtLeftmost(s, 0);
    assert s[0..] == s;
  }

  /**
   * Every emitted fragment stands where the cursor is after the emitted text
   * before it: fragment k of Emit(file, c, content) is at c moved over the texts
   * of fragments 0..k-1.
   */
  lemma EmitAt(file: Option<string>, c: Cursor, content: string, k: nat)
    requires k < |Emit(file, c, content)|
    ensures Cursor(Emit(file, c, content)[k].line, Emit(file, c, content)[k].column)
         == Forwarded(c, Texts(Emit(file, c, content)[..k]))
  {
    var segs := Segments(content, 0);
    EmitFromPlace(file, c, content, 0);
    PlaceShape(file, c, segs);
    PlaceAt(file, c, segs, k);
    PlaceShape(file, c, segs[..k]);
    PlacePrefix(file, c, segs, k);
  }

  /** From a cursor at line >= 1 and column >= 0, every fragment of `add` is at line >= 1 and column >= 0. */
  lemma EmitBounds(file: Option<string>, c: Cursor, content: string)
    requires c.line >= 1 && c.column >= 0
    ensures AllWellPlaced(Emit(file, c, content))
  {
    var fs := Emit(file, c, content);
    forall k | 0 <= k < |fs|
      ensures WellPlaced(fs[k])
    {
      EmitAt(file, c, content, k);
      ForwardedBounds(c, Texts(fs[..k]));
    }
  }

  /**
   * The texts of the fragments before fragment k, and fragment k's own text,
   * lie in `content` one after the other from its start.
   */
  lemma EmitSlices(file: Option<string>, c: Cursor, content: string, k: nat)
    requires k < |Emit(file, c, content)|
    ensures var fs := Emit(file, c, content);
      var n := |Texts(fs[..k])|;
      n + |fs[k].text| <= |content| &&
      content[..n] == Texts(fs[..k]) &&
      content[n..n + |fs[k].text|] == fs[k].text
  {
    var fs := Emit(file, c, content);
    EmitTexts(file, c, content);
    assert fs == fs[..k] + ([fs[k]] + fs[k + 1..]);
    TextsAppend(fs[..k], [fs[k]] + fs[k + 1..]);
    TextsAppend([fs[k]], fs[k + 1..]);
    assert Texts([fs[k]]) == fs[k].text + [];
  }

  lemma {:induction false} PlacePrefix(file: Option<string>, c: Cursor, segs: seq<string>, k: nat)
    decreases k
    requires k <= |segs|
    ensures |Place(file, c, segs)| == |segs|
    ensures Place(file, c, segs)[..k] == Place(file, c, segs[..k])
  {
    PlaceShape(file, c, segs);
    if k > 0 {
      PlacePrefix(file, Forwarded(c, segs[0]), segs[1..], k - 1);
      assert segs[..k][1..] == segs[1..][..k - 1];
    }
  }

  /**
   * Appending what is emitted from `from` is appending s[from..to], the text up
   * to and including the next line break or else the rest, at `c`, then what is
   * emitted after it.
   */
  lemma EmitFromStep(done: seq<Fragment>, file: Option<string>, c: Cursor, s: string, from: nat, to: nat)
    requires from < to <= |s|
    requires NewlineAt(s, from) == Some(to - 1) || (NewlineAt(s, from).None? && to == |s|)
    ensures done + EmitFrom(file, c, s, from)
         == (done + [Fragment(c.line, c.column, file, s[from..to])]) + EmitFrom(file, Forwarded(c, s[from..to]), s, to)
  {
    var f, rest := Fragment(c.line, c.column, file, s[from..to]), EmitFrom(file, Forwarded(c, s[from..to]), s, to);
    if NewlineAt(s, from).None? {
      assert rest == [];
      assert s[from..to] == s[from..];
      assert EmitFrom(file, c, s, from) == [f] + rest;
    } else {
      var i := NewlineAt(s, from).value;
      assert i + 1 == to;
      assert EmitFrom(file, c, s, from) == [f] + rest;
    }
    assert done + ([f] + rest) == (done + [f]) + rest;
  }

  /** Moving over a prefix and then the next slice is moving over the longer prefix. */
  lemma ForwardedPrefix(c: Cursor, s: string, i: nat, j: nat)
    requires i <= j <= |s|
    ensures Forwarded(Forwarded(c, s[..i]), s[i..j]) == Forwarded(c, s[..j])
  {
    ForwardedConcat(c, s[..i], s[i..j]);
    assert s[..i] + s[i..j] == s[..j];
  }

  /** `lineMatcher.exec(s)` with its `lastIndex` at `from`: a scan for the next line break. */
  method NextNewline(s: string, from: nat) returns (r: Option<nat>)
    requires from <= |s|
    ensures r == NewlineAt(s, from)
  {
    var i := from;
    while i < |s| && s[i] != '\n'
      invariant from <= i <= |s|
      invariant NewlineAt(s, i) == NewlineAt(s, from)
    {
      i := i + 1;
    }
    r := if i < |s| then Some(i) else None;
  }

  // ---------------------------------------------------------------------------
  // The Position class

  /** A cursor in one file; `file` is None for a template without a name. */
  class Position {
    var file: Option<string>
    var line: int
    var column: int

    constructor (file: Option<string>, line: int := 1, column: int := 0)
      ensures this.file == file && this.line == line && this.column == column
    {
      this.file := file;
      this.line := line;
      this.column := column;
    }

    function Here(): Cursor
      reads this
    {
      Cursor(line, column)
    }

    /** `forward`: move the cursor to just after `content`. */
    method Forward(content: string)
      modifies this
      ensures file == old(file)
      ensures Here() == Forwarded(old(Here()), content)
    {
      // content.split(lineMatcher): count the lines and measure the last one
      // (SplitCounts: |Split(content)| == LineBreaks(content) + 1)
      var lines, lastLength, i := 1, 0, 0;
      while i < |content|
        invariant 0 <= i <= |content|
        invariant lines == LineBreaks(content[..i]) + 1
        invariant lastLength == TailLength(content[..i])
      {
        assert content[..i + 1][..i] == content[..i];
        if content[i] == '\n' {
          lines, lastLength := lines + 1, 0;
        } else {
          lastLength := lastLength + 1;
        }
        i := i + 1;
      }
      assert content[..i] == content;
      ForwardedArithmetic(Here(), content);
      if lines <= 1 {
        column := column + |content|;
      } else {
        line := line + lines - 1;
        column := lastLength;
      }
    }

    /**
     * `add`: append the fragments of `content`, one per line segment, each at
     * the cursor as it stands when the segment starts.  With `autoForward` this
     * cursor ends after `content`; without it a copy moves and this one stays.
     */
    method Add(node: SourceNode, content: string, autoForward: bool := true)
      modifies node, if autoForward then {this} else {}
      ensures node.fragments == old(node.fragments) + Emit(file, old(Here()), content)
      ensures node.sourceContents == old(node.sourceContents)
      ensures file == old(file)
      ensures autoForward ==> Here() == Forwarded(old(Here()), content)
      ensures !autoForward ==> Here() == old(Here())
    {
      var pos: Position;
      if autoForward {
        pos := this;
      } else {
        pos := new Position(file, line, column);
      }
      pos.AddLines(node, content);
    }

    /** The loop of `add`, run on the cursor that moves (this one or the copy). */
    method AddLines(node: SourceNode, content: string)
      modifies this, node
      ensures node.fragments == old(node.fragments) + Emit(file, old(Here()), content)
      ensures node.sourceContents == old(node.sourceContents)
      ensures file == old(file)
      ensures Here() == Forwarded(old(Here()), content)
    {
      ghost var start := Here();
      ghost var target := node.fragments + Emit(file, start, content);
      var lastIndex := 0;
      var next := NextNewline(content, 0);
      while next.Some?
        invariant lastIndex <= |content|
        invariant next == NewlineAt(content, lastIndex)
        invariant file == old(file)
        invariant Here() == Forwarded(start, content[..lastIndex])
        invariant node.fragments + EmitFrom(file, Here(), content, lastIndex) == target
        invariant node.sourceContents == old(node.sourceContents)
        decreases |content| - lastIndex
      {
        var i := next.value;
        AddSegment(node, content, lastIndex, i + 1, start, target);
        lastIndex := i + 1;
        next := NextNewline(content, lastIndex);
      }
      if lastIndex < |content| {
        AddSegment(node, content, lastIndex, |content|, start, target);
      }
      assert content[..|content|] == content;
    }

    /**
     * One step of `add`'s loop: map content[from..to], the text up to and
     * including the next line break or else the rest, at the cursor, then move
     * the cursor over it.
     */
    method AddSegment(node: SourceNode, content: string, from: nat, to: nat, ghost start: Cursor, ghost target: seq<Fragment>)
      requires from < to <= |content|
      requires NewlineAt(content, from) == Some(to - 1) || (NewlineAt(content, from).None? && to == |content|)
      requires Here() == Forwarded(start, content[..from])
      requires node.fragments + EmitFrom(file, Here(), content, from) == target
      modifies this, node
      ensures node.fragments + EmitFrom(file, Here(), content, to) == target
      ensures node.sourceContents == old(node.sourceContents)
      ensures file == old(file)
      ensures Here() == Forwarded(start, content[..to])
    {
      var sub := content[from..to];
      ForwardedPrefix(start, content, from, to);
      EmitFromStep(node.fragments, file, Here(), content, from, to);
      node.Add([Fragment(line, column, file, sub)]);
      Forward(sub);
    }
  }
}
