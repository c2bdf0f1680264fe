/**
 * The `Replacer`: every match of a regular expression in the content is
 * replaced by the template with its references filled in, and each piece of
 * the output keeps a mapping to where it came from: unmatched text to its own
 * place in the content, template text to its place in the template, and the
 * value of a reference to the place in the content where the match starts.
 */
module Replacing {
  import opened Wrappers
  import opened SourceNodes
  import opened PositionTracking
  import opened Templates

  /** `match[key]` was undefined: `add` is then handed `undefined` and throws a TypeError. */
  datatype Error = MissingGroup(key: string)

  /** `done` in front of the fragments of a success; a failure passes through. */
  function Prepend(done: seq<Fragment>, r: Result<seq<Fragment>, Error>): Result<seq<Fragment>, Error>
  {
    if r.Success? then Success(done + r.value) else Failure(r.error)
  }

  lemma PrependPrepend(a: seq<Fragment>, b: seq<Fragment>, r: Result<seq<Fragment>, Error>)
    ensures Prepend(a, Prepend(b, r)) == Prepend(a + b, r)
  {
    if r.Success? {
      assert a + (b + r.value) == (a + b) + r.value;
    }
  }

  // ---------------------------------------------------------------------------
  // Filling in the template for one match

  /** Every reference of the template names a group of `m` that took part in the match. */
  predicate Resolves(parts: seq<Part>, m: RegexMatch)
    requires WellKeyed(parts)
  {
    forall k :: 0 <= k < |parts| && parts[k].Ref? ==> Group(m, parts[k].key).Some?
  }

  /** The replacement text: each literal as written, each reference by the value of its group. */
  function Substituted(parts: seq<Part>, m: RegexMatch): string
    requires WellKeyed(parts) && Resolves(parts, m)
  {
    if parts == [] then []
    else (match parts[0] case Lit(s) => s case Ref(key, _) => Group(m, key).value) + Substituted(parts[1..], m)
  }

  /** The literal text of the template, with the references left out. */
  function LiteralText(parts: seq<Part>): string
  {
    if parts == [] then []
    else (match parts[0] case Lit(s) => s case Ref(_, _) => []) + LiteralText(parts[1..])
  }

  /**
   * The fragments `createReplaceNode` builds: each literal is added at the
   * template cursor `tc` of `tname`, which then moves over it; each reference
   * is added, without moving anything, at `anchor` in `file`, the cursor of
   * the content where the match starts; an undefined group fails.
   */
  function ExpandParts(parts: seq<Part>, tname: Option<string>, tc: Cursor, file: Option<string>, anchor: Cursor, m: RegexMatch)
    : Result<seq<Fragment>, Error>
    requires WellKeyed(parts)
    decreases |parts|
  {
    if parts == [] then Success([])
    else match parts[0]
      case Lit(s) =>
        Prepend(Emit(tname, tc, s), ExpandParts(parts[1..], tname, Forwarded(tc, s), file, anchor, m))
      case Ref(key, _) =>
        match Group(m, key)
        case None => Failure(MissingGroup(key))
        case Some(v) => Prepend(Emit(file, anchor, v), ExpandParts(parts[1..], tname, tc, file, anchor, m))
  }

  /** Every reference resolves exactly when the first part does and all the rest do. */
  lemma ResolvesCons(parts: seq<Part>, m: RegexMatch)
    requires parts != [] && WellKeyed(parts)
    ensures WellKeyed(parts[1..])
    ensures Resolves(parts, m) <==>
      (parts[0].Ref? ==> Group(m, parts[0].key).Some?) && Resolves(parts[1..], m)
  {
    assert forall k :: 0 < k < |parts| ==> parts[k] == parts[1..][k - 1];
  }

  /**
   * Filling in succeeds exactly when every reference resolves, and then spells
   * out the replacement text; otherwise it fails on a reference whose group is
   * undefined.
   */
  lemma {:induction false} ExpandOutcome(parts: seq<Part>, tname: Option<string>, tc: Cursor, file: Option<string>, anchor: Cursor, m: RegexMatch)
    requires WellKeyed(parts)
    decreases |parts|
    ensures ExpandParts(parts, tname, tc, file, anchor, m).Success? <==> Resolves(parts, m)
    ensures Resolves(parts, m) ==> Texts(ExpandParts(parts, tname, tc, file, anchor, m).value) == Substituted(parts, m)
    ensures ExpandParts(parts, tname, tc, file, anchor, m).Failure? ==>
      exists k :: 0 <= k < |parts| && parts[k].Ref? && Group(m, parts[k].key).None? &&
        ExpandParts(parts, tname, tc, file, anchor, m).error == MissingGroup(parts[k].key)
  {
    if parts != [] {
      ResolvesCons(parts, m);
      var tc' := if parts[0].Lit? then Forwarded(tc, parts[0].text) else tc;
      ExpandOutcome(parts[1..], tname, tc', file, anchor, m);
      var rest := ExpandParts(parts[1..], tname, tc', file, anchor, m);
      if parts[0].Ref? && Group(m, parts[0].key).None? {
        assert parts[0].Ref? && Group(m, parts[0].key).None?;
      } else {
        var text := if parts[0].Lit? then parts[0].text else Group(m, parts[0].key).value;
        var head := if parts[0].Lit? then Emit(tname, tc, text) else Emit(file, anchor, text);
        assert ExpandParts(parts, tname, tc, file, anchor, m) == Prepend(head, rest);
        if Resolves(parts, m) {
          TextsAppend(head, rest.value);
          if parts[0].Lit? {
            EmitTexts(tname, tc, text);
          } else {
            EmitTexts(file, anchor, text);
          }
          assert Substituted(parts, m) == text + Substituted(parts[1..], m);
        }
        if rest.Failure? {
          var k :| 0 <= k < |parts[1..]| && parts[1..][k].Ref? && Group(m, parts[1..][k].key).None? &&
            rest.error == MissingGroup(parts[1..][k].key);
          assert parts[k + 1] == parts[1..][k];
        }
      }
    }
  }

  lemma WellKeyedAppend(a: seq<Part>, b: seq<Part>)
    requires WellKeyed(a) && WellKeyed(b)
    ensures WellKeyed(a + b)
  {
    forall k | 0 <= k < |a + b| && (a + b)[k].Ref?
      ensures (a + b)[k].key != [] && IsDigits((a + b)[k].key)
    {
      if k < |a| { assert (a + b)[k] == a[k]; } else { assert (a + b)[k] == b[k - |a|]; }
    }
  }

  /**
   * The template cursor moves over literal text only: after a resolved prefix
   * of the template it stands where `tc` moved over that prefix's literal text
   * would be, so a reference's own characters (`$1`) are never counted.
   */
  lemma {:induction false} ExpandAppend(a: seq<Part>, b: seq<Part>, tname: Option<string>, tc: Cursor, file: Option<string>, anchor: Cursor, m: RegexMatch)
    requires WellKeyed(a) && WellKeyed(b) && Resolves(a, m)
    decreases |a|
    ensures WellKeyed(a + b)
    ensures ExpandParts(a, tname, tc, file, anchor, m).Success?
    ensures ExpandParts(a + b, tname, tc, file, anchor, m)
         == Prepend(ExpandParts(a, tname, tc, file, anchor, m).value,
                    ExpandParts(b, tname, Forwarded(tc, LiteralText(a)), file, anchor, m))
  {
    WellKeyedAppend(a, b);
    ExpandOutcome(a, tname, tc, file, anchor, m);
    if a == [] {
      assert a + b == b;
      ForwardedNoNewline(tc, []);
      var rb := ExpandParts(b, tname, tc, file, anchor, m);
      if rb.Success? {
        assert [] + rb.value == rb.value;
      }
    } else {
      assert (a + b)[1..] == a[1..] + b;
      ResolvesCons(a, m);
      var tc' := if a[0].Lit? then Forwarded(tc, a[0].text) else tc;
      ExpandAppend(a[1..], b, tname, tc', file, anchor, m);
      var head := match a[0] case Lit(s) => Emit(tname, tc, s) case Ref(key, _) => Emit(file, anchor, Group(m, key).value);
      PrependPrepend(head, ExpandParts(a[1..], tname, tc', file, anchor, m).value,
        ExpandParts(b, tname, Forwarded(tc', LiteralText(a[1..])), file, anchor, m));
      if a[0].Lit? {
        ForwardedConcat(tc, a[0].text, LiteralText(a[1..]));
      } else {
        assert LiteralText(a) == LiteralText(a[1..]);
      }
    }
  }

  /**
   * From cursors at line >= 1 and column >= 0, every fragment of a filled-in
   * template is at line >= 1 and column >= 0.
   */
  lemma {:induction false} ExpandBounds(parts: seq<Part>, tname: Option<string>, tc: Cursor, file: Option<string>, anchor: Cursor, m: RegexMatch)
    requires WellKeyed(parts)
    requires tc.line >= 1 && tc.column >= 0 && anchor.line >= 1 && anchor.column >= 0
    decreases |parts|
    ensures ExpandParts(parts, tname, tc, file, anchor, m).Success? ==> AllWellPlaced(ExpandParts(parts, tname, tc, file, anchor, m).value)
  {
    if parts != [] && ExpandParts(parts, tname, tc, file, anchor, m).Success? {
      assert WellKeyed(parts[1..]) by {
        assert forall k :: 0 < k < |parts| ==> parts[k] == parts[1..][k - 1];
      }
      var tc' := if parts[0].Lit? then Forwarded(tc, parts[0].text) else tc;
      ForwardedBounds(tc, if parts[0].Lit? then parts[0].text else []);
      ExpandBounds(parts[1..], tname, tc', file, anchor, m);
      var rest := ExpandParts(parts[1..], tname, tc', file, anchor, m);
      var head := if parts[0].Lit? then Emit(tname, tc, parts[0].text) else Emit(file, anchor, Group(m, parts[0].key).value);
      if parts[0].Lit? {
        EmitBounds(tname, tc, parts[0].text);
      } else {
        EmitBounds(file, anchor, Group(m, parts[0].key).value);
      }
      assert ExpandParts(parts, tname, tc, file, anchor, m) == Prepend(head, rest);
      WellPlacedAppend(head, rest.value);
    }
  }

  /**
   * Filling in parts that start with a literal: the literal at the template
   * cursor, then the rest with the cursor moved over it.  An empty literal adds
   * nothing and moves nothing, so a template whose parts skip it is filled in
   * the same way.
   */
  lemma ExpandLiteral(lit: string, tail: seq<Part>, tname: Option<string>, tc: Cursor, file: Option<string>, anchor: Cursor, m: RegexMatch)
    requires WellKeyed(tail)
    ensures WellKeyed([Lit(lit)] + tail)
    ensures ExpandParts(if lit != [] then [Lit(lit)] + tail else tail, tname, tc, file, anchor, m)
         == Prepend(Emit(tname, tc, lit), ExpandParts(tail, tname, Forwarded(tc, lit), file, anchor, m))
  {
    assert forall k :: 0 < k < |[Lit(lit)] + tail| ==> ([Lit(lit)] + tail)[k] == tail[k - 1];
    assert ([Lit(lit)] + tail)[1..] == tail;
    if lit == [] {
      EmitTexts(tname, tc, lit);
      ForwardedNoNewline(tc, lit);
      var r := ExpandParts(tail, tname, tc, file, anchor, m);
      if r.Success? {
        assert [] + r.value == r.value;
      }
    }
  }

  /** Filling in parts that start with a reference: its group's value at the anchor, or failure. */
  lemma ExpandReference(key: string, raw: string, tail: seq<Part>, tname: Option<string>, tc: Cursor, file: Option<string>, anchor: Cursor, m: RegexMatch)
    requires key != [] && IsDigits(key) && WellKeyed(tail)
    ensures WellKeyed([Ref(key, raw)] + tail)
    ensures var v := Group(m, key);
      ExpandParts([Ref(key, raw)] + tail, tname, tc, file, anchor, m) ==
        if v.None? then Failure(MissingGroup(key))
        else Prepend(Emit(file, anchor, v.value), ExpandParts(tail, tname, tc, file, anchor, m))
  {
    assert forall k :: 0 < k < |[Ref(key, raw)] + tail| ==> ([Ref(key, raw)] + tail)[k] == tail[k - 1];
    assert ([Ref(key, raw)] + tail)[1..] == tail;
  }

  /**
   * One turn of `createReplaceNode`'s loop, stated on values: with `done`
   * already added and the next reference found from `from`, the literal text
   * before it goes at the template cursor, then the group's value at the
   * anchor, or the whole fails when the group is undefined.
   */
  lemma ExpandStep(done: seq<Fragment>, t: string, from: nat, tname: Option<string>, tc: Cursor, file: Option<string>, anchor: Cursor, m: RegexMatch)
    requires from <= |t| && FirstToken(t, from).Some?
    ensures
      var tok := FirstToken(t, from).value;
      var lit := t[from..tok.start];
      var v := Group(m, tok.key);
      Prepend(done, ExpandParts(Parts(t, from), tname, tc, file, anchor, m)) ==
        if v.None? then Failure(MissingGroup(tok.key))
        else Prepend(done + Emit(tname, tc, lit) + Emit(file, anchor, v.value),
                     ExpandParts(Parts(t, tok.end), tname, Forwarded(tc, lit), file, anchor, m))
  {
    var tok := FirstToken(t, from).value;
    var lit := t[from..tok.start];
    var ref := Ref(tok.key, t[tok.start..tok.end]);
    var rest := Parts(t, tok.end);
    var tc' := Forwarded(tc, lit);
    PartsStep(t, from);
    ExpandReference(tok.key, t[tok.start..tok.end], rest, tname, tc', file, anchor, m);
    ExpandLiteral(lit, [ref] + rest, tname, tc, file, anchor, m);
    var v := Group(m, tok.key);
    if v.Some? {
      var rr := ExpandParts(rest, tname, tc', file, anchor, m);
      PrependPrepend(Emit(tname, tc, lit), Emit(file, anchor, v.value), rr);
      PrependPrepend(done, Emit(tname, tc, lit) + Emit(file, anchor, v.value), rr);
      assert done + (Emit(tname, tc, lit) + Emit(file, anchor, v.value)) == done + Emit(tname, tc, lit) + Emit(file, anchor, v.value);
    }
  }

  /** After the last reference, the rest of the template goes at the template cursor. */
  lemma ExpandTail(done: seq<Fragment>, t: string, from: nat, tname: Option<string>, tc: Cursor, file: Option<string>, anchor: Cursor, m: RegexMatch)
    requires from <= |t| && FirstToken(t, from).None?
    ensures Prepend(done, ExpandParts(Parts(t, from), tname, tc, file, anchor, m)) == Success(done + Emit(tname, tc, t[from..]))
  {
    if from == |t| {
      EmitTexts(tname, tc, t[from..]);
    } else {
      assert Parts(t, from) == [Lit(t[from..])];
      assert Emit(tname, tc, t[from..]) + [] == Emit(tname, tc, t[from..]);
    }
  }

  // ---------------------------------------------------------------------------
  // The regular expression

  /**
   * A regular expression as the replacer sees it: its `global` flag and
   * `exec(content, from)`, the search of `content` that starts at `from`.
   */
  datatype Regex = Regex(global: bool, exec: (string, nat) -> Option<RegexMatch>)

  function End(m: RegexMatch): nat
  {
    m.index + |m.text|
  }

  /** `m` is a match found searching `content` from `from`: it starts no earlier and its text is there. */
  predicate FoundIn(m: RegexMatch, content: string, from: nat)
  {
    from <= m.index && End(m) <= |content| && content[m.index..End(m)] == m.text
  }

  /** What the replacer relies on from the regular-expression engine. */
  ghost predicate ExecSound(rx: Regex, content: string)
  {
    forall from: nat :: rx.exec(content, from).Some? ==> FoundIn(rx.exec(content, from).value, content, from)
  }

  /** Where the search goes on after `m`: its end, one further after an empty match. */
  function NextSearch(m: RegexMatch): nat
  {
    if m.text == [] then End(m) + 1 else End(m)
  }

  /**
   * The matches `replace` visits, searching from `from` (a regular expression
   * without the global flag searches from the start and stops after one match).
   */
  function Matches(rx: Regex, content: string, from: nat): (ms: seq<RegexMatch>)
    requires ExecSound(rx, content)
    decreases |content| + 1 - from
    ensures !rx.global ==> |ms| <= 1
  {
    match rx.exec(content, if rx.global then from else 0)
    case None => []
    case Some(m) =>
      if rx.global then [m] + Matches(rx, content, NextSearch(m)) else [m]
  }

  /** The matches lie in `content` one after the other, the first no earlier than `last`. */
  predicate Fits(ms: seq<RegexMatch>, last: nat, content: string)
    decreases |ms|
  {
    ms == [] || (FoundIn(ms[0], content, last) && Fits(ms[1..], End(ms[0]), content))
  }

  /** The matches `replace` visits lie in the content in order and do not overlap. */
  lemma {:induction false} MatchesFit(rx: Regex, content: string, from: nat)
    requires ExecSound(rx, content) && (rx.global || from == 0)
    decreases |content| + 1 - from
    ensures Fits(Matches(rx, content, from), from, content)
  {
    match rx.exec(content, from)
    case None =>
    case Some(m) =>
      if rx.global {
        var next := Matches(rx, content, NextSearch(m));
        MatchesFit(rx, content, NextSearch(m));
        if next != [] {
          assert FoundIn(next[0], content, End(m));
        }
        assert Matches(rx, content, from)[1..] == next;
      }
  }

  // ---------------------------------------------------------------------------
  // The whole replacement

  /** The cursor of the content after its first i characters. */
  function At(content: string, i: nat): Cursor
    requires i <= |content|
  {
    Forwarded(Cursor(1, 0), content[..i])
  }

  /**
   * The fragments of the output from content[last..] on, given the matches
   * still to come: the unmatched text before each match at its own place in
   * `file`, then the template filled in for the match, and after the last
   * match the rest of the content.
   */
  function Assemble(content: string, file: string, parts: seq<Part>, tname: Option<string>, ms: seq<RegexMatch>, last: nat)
    : Result<seq<Fragment>, Error>
    requires last <= |content| && Fits(ms, last, content) && WellKeyed(parts)
    decreases |ms|
  {
    if ms == [] then Success(Emit(Some(file), At(content, last), content[last..]))
    else
      var m := ms[0];
      match ExpandParts(parts, tname, Cursor(1, 0), Some(file), At(content, m.index), m)
      case Failure(e) => Failure(e)
      case Success(fs) =>
        Prepend(Emit(Some(file), At(content, last), content[last..m.index]) + fs,
                Assemble(content, file, parts, tname, ms[1..], End(m)))
  }

  /** The output text: each match of content[last..] replaced by the template filled in for it. */
  function Splice(content: string, parts: seq<Part>, ms: seq<RegexMatch>, last: nat): string
    requires last <= |content| && Fits(ms, last, content) && WellKeyed(parts)
    requires forall k :: 0 <= k < |ms| ==> Resolves(parts, ms[k])
    decreases |ms|
  {
    if ms == [] then content[last..]
    else content[last..ms[0].index] + Substituted(parts, ms[0]) + Splice(content, parts, ms[1..], End(ms[0]))
  }

  /** The template `$0`: every match replaced by itself. */
  const WholeMatch: seq<Part> := [Ref("0", "$0")]

  lemma WholeMatchResolves(m: RegexMatch)
    ensures WellKeyed(WholeMatch) && Resolves(WholeMatch, m)
    ensures Substituted(WholeMatch, m) == m.text
  {
    assert IsDigits("0");
    assert WholeMatch[1..] == [];
    assert Substituted(WholeMatch, m) == m.text + [];
  }

  /**
   * The gaps and the matched texts tile the content: replacing every match by
   * its own text (`$0`) gives the content back, so no content character is
   * dropped or repeated.
   */
  lemma {:induction false} SpliceIdentity(content: string, ms: seq<RegexMatch>, last: nat)
    requires last <= |content| && Fits(ms, last, content)
    decreases |ms|
    ensures WellKeyed(WholeMatch) && forall k :: 0 <= k < |ms| ==> Resolves(WholeMatch, ms[k])
    ensures Splice(content, WholeMatch, ms, last) == content[last..]
  {
    WholeMatchResolvesAll(ms);
    if ms != [] {
      var m := ms[0];
      assert FoundIn(m, content, last) && Fits(ms[1..], End(m), content);
      SpliceIdentity(content, ms[1..], End(m));
      WholeMatchResolves(m);
      assert Splice(content, WholeMatch, ms, last)
          == content[last..m.index] + m.text + Splice(content, WholeMatch, ms[1..], End(m));
      SliceThree(content, last, m.index, End(m));
    }
  }

  lemma WholeMatchResolvesAll(ms: seq<RegexMatch>)
    ensures WellKeyed(WholeMatch) && forall k :: 0 <= k < |ms| ==> Resolves(WholeMatch, ms[k])
  {
    forall k | 0 <= k < |ms|
      ensures WellKeyed(WholeMatch) && Resolves(WholeMatch, ms[k])
    {
      WholeMatchResolves(ms[k]);
    }
    WholeMatchResolves(RegexMatch(0, [], []));
  }

  /**
   * The output is built exactly when every match fills in every reference, and
   * its text is then the content with each match replaced.
   */
  lemma {:induction false} AssembleOutcome(content: string, file: string, parts: seq<Part>, tname: Option<string>, ms: seq<RegexMatch>, last: nat)
    requires last <= |content| && Fits(ms, last, content) && WellKeyed(parts)
    decreases |ms|
    ensures Assemble(content, file, parts, tname, ms, last).Success? <==> forall k :: 0 <= k < |ms| ==> Resolves(parts, ms[k])
    ensures (forall k :: 0 <= k < |ms| ==> Resolves(parts, ms[k])) ==>
      Texts(Assemble(content, file, parts, tname, ms, last).value) == Splice(content, parts, ms, last)
  {
    if ms == [] {
      EmitTexts(Some(file), At(content, last), content[last..]);
    } else {
      var m := ms[0];
      AssembleOutcome(content, file, parts, tname, ms[1..], End(m));
      ExpandOutcome(parts, tname, Cursor(1, 0), Some(file), At(content, m.index), m);
      assert (forall k :: 0 <= k < |ms| ==> Resolves(parts, ms[k])) <==>
             Resolves(parts, m) && (forall k :: 0 <= k < |ms[1..]| ==> Resolves(parts, ms[1..][k])) by {
        if Resolves(parts, m) && (forall k :: 0 <= k < |ms[1..]| ==> Resolves(parts, ms[1..][k])) {
          forall k | 0 < k < |ms|
            ensures Resolves(parts, ms[k])
          {
            assert ms[k] == ms[1..][k - 1];
          }
        }
      }
      if forall k :: 0 <= k < |ms| ==> Resolves(parts, ms[k]) {
        var gap := Emit(Some(file), At(content, last), content[last..m.index]);
        var fs := ExpandParts(parts, tname, Cursor(1, 0), Some(file), At(content, m.index), m).value;
        var rest := Assemble(content, file, parts, tname, ms[1..], End(m)).value;
        EmitTexts(Some(file), At(content, last), content[last..m.index]);
        TextsAppend(gap + fs, rest);
        TextsAppend(gap, fs);
      }
    }
  }

  /** Every fragment of the output is at line >= 1 and column >= 0. */
  lemma {:induction false} AssembleBounds(content: string, file: string, parts: seq<Part>, tname: Option<string>, ms: seq<RegexMatch>, last: nat)
    requires last <= |content| && Fits(ms, last, content) && WellKeyed(parts)
    decreases |ms|
    ensures Assemble(content, file, parts, tname, ms, last).Success? ==> AllWellPlaced(Assemble(content, file, parts, tname, ms, last).value)
  {
    ForwardedBounds(Cursor(1, 0), content[..last]);
    if ms == [] {
      EmitBounds(Some(file), At(content, last), content[last..]);
    } else if Assemble(content, file, parts, tname, ms, last).Success? {
      var m := ms[0];
      ForwardedBounds(Cursor(1, 0), content[..m.index]);
      ExpandBounds(parts, tname, Cursor(1, 0), Some(file), At(content, m.index), m);
      AssembleBounds(content, file, parts, tname, ms[1..], End(m));
      var gap := Emit(Some(file), At(content, last), content[last..m.index]);
      EmitBounds(Some(file), At(content, last), content[last..m.index]);
      var fs := ExpandParts(parts, tname, Cursor(1, 0), Some(file), At(content, m.index), m).value;
      WellPlacedAppend(gap, fs);
      WellPlacedAppend(gap + fs, Assemble(content, file, parts, tname, ms[1..], End(m)).value);
    }
  }

  /**
   * One turn of `replace`'s loop, stated on values: with `done` already added
   * and `ms[0]` the next match, the unmatched text before it goes at its own
   * place, then the template filled in for it, or the whole fails.
   */
  lemma AssembleStep(done: seq<Fragment>, content: string, file: string, parts: seq<Part>, tname: Option<string>, ms: seq<RegexMatch>, last: nat)
    requires last <= |content| && Fits(ms, last, content) && WellKeyed(parts) && ms != []
    ensures var x := ExpandParts(parts, tname, Cursor(1, 0), Some(file), At(content, ms[0].index), ms[0]);
      Prepend(done, Assemble(content, file, parts, tname, ms, last)) ==
        if x.Failure? then Failure(x.error)
        else Prepend(done + Emit(Some(file), At(content, last), content[last..ms[0].index]) + x.value,
                     Assemble(content, file, parts, tname, ms[1..], End(ms[0])))
  {
    var m := ms[0];
    match ExpandParts(parts, tname, Cursor(1, 0), Some(file), At(content, m.index), m)
    case Failure(e) =>
    case Success(fs) =>
      var gap := Emit(Some(file), At(content, last), content[last..m.index]);
      PrependPrepend(done, gap + fs, Assemble(content, file, parts, tname, ms[1..], End(m)));
      assert done + (gap + fs) == done + gap + fs;
  }

  /**
   * The state of `replace`'s loop, apart from the objects: `rest` are the
   * matches still to come when the engine searches from `engineLast`, the
   * unmatched text starts at `last`, and `done` followed by the rest of the
   * output is the whole output `target`.
   */
  ghost predicate Progress(rx: Regex, content: string, file: string, parts: seq<Part>, tname: Option<string>,
                           target: Result<seq<Fragment>, Error>, last: nat, engineLast: nat, rest: seq<RegexMatch>, done: seq<Fragment>)
  {
    ExecSound(rx, content) && WellKeyed(parts) &&
    last <= engineLast <= |content| + 1 && last <= |content| &&
    (rx.global || (engineLast == 0 && last == 0)) &&
    rest == Matches(rx, content, engineLast) &&
    Fits(rest, last, content) &&
    Prepend(done, Assemble(content, file, parts, tname, rest, last)) == target
  }

  /**
   * One turn of `replace`'s loop, stated on values: the match the engine
   * finds is the next one, it lies after `last`, and either its template
   * fails the whole or the loop goes on after it with its fragments added.
   */
  lemma ProgressStep(rx: Regex, content: string, file: string, parts: seq<Part>, tname: Option<string>,
                     target: Result<seq<Fragment>, Error>, last: nat, engineLast: nat, rest: seq<RegexMatch>, done: seq<Fragment>,
                     m: RegexMatch)
    requires Progress(rx, content, file, parts, tname, target, last, engineLast, rest, done)
    requires rx.exec(content, if rx.global then engineLast else 0) == Some(m)
    ensures FoundIn(m, content, last)
    ensures var child := ExpandParts(parts, tname, Cursor(1, 0), Some(file), At(content, m.index), m);
      if child.Failure? then target == Failure(child.error)
      else
        var done' := done + Emit(Some(file), At(content, last), content[last..m.index]) + child.value;
        if rx.global then
          Progress(rx, content, file, parts, tname, target, End(m), NextSearch(m), rest[1..], done')
        else
          Fits([], End(m), content) && Prepend(done', Assemble(content, file, parts, tname, [], End(m))) == target
  {
    assert rest == [m] + rest[1..];
    AssembleStep(done, content, file, parts, tname, rest, last);
    if rx.global {
      assert rest[1..] == Matches(rx, content, NextSearch(m));
    }
  }

  /** When the engine finds nothing more, no match is left. */
  lemma ProgressDone(rx: Regex, content: string, file: string, parts: seq<Part>, tname: Option<string>,
                     target: Result<seq<Fragment>, Error>, last: nat, engineLast: nat, rest: seq<RegexMatch>, done: seq<Fragment>)
    requires Progress(rx, content, file, parts, tname, target, last, engineLast, rest, done)
    requires rx.exec(content, if rx.global then engineLast else 0).None?
    ensures rest == []
  {
  }

  /** What `toStringWithSourceMap({ file })` returns: the code and its source map. */
  datatype Generated = Generated(file: string, code: string, mappings: seq<Fragment>, sourcesContent: map<string, string>)

  /** The sources registered on the node: the content under `file`, then the template under its name. */
  function Sources(file: string, content: string, tname: Option<string>, template: string): map<string, string>
  {
    if tname.Some? then map[file := content][tname.value := template] else map[file := content]
  }

  /** What `replace` produces for `content`, or the error it stops with. */
  function ReplaceSpec(rx: Regex, template: string, tname: Option<string>, content: string, file: string): Result<Generated, Error>
    requires ExecSound(rx, content)
  {
    MatchesFit(rx, content, 0);
    match Assemble(content, file, Parts(template, 0), tname, Matches(rx, content, 0), 0)
    case Failure(e) => Failure(e)
    case Success(fs) => Success(Generated(file, Texts(fs), fs, Sources(file, content, tname, template)))
  }

  /**
   * `replace` succeeds exactly when every match resolves every reference of
   * the template, and its code is then the content with every match replaced
   * by the filled-in template; both the content and the template are
   * registered as sources.
   */
  lemma ReplaceOutcome(rx: Regex, template: string, tname: Option<string>, content: string, file: string)
    requires ExecSound(rx, content)
    ensures Fits(Matches(rx, content, 0), 0, content)
    ensures ReplaceSpec(rx, template, tname, content, file).Success? ==>
      forall k :: 0 <= k < |Matches(rx, content, 0)| ==> Resolves(Parts(template, 0), Matches(rx, content, 0)[k])
    ensures (forall k :: 0 <= k < |Matches(rx, content, 0)| ==> Resolves(Parts(template, 0), Matches(rx, content, 0)[k])) ==>
      ReplaceSpec(rx, template, tname, content, file).Success?
    ensures ReplaceSpec(rx, template, tname, content, file).Success? ==>
      ReplaceSpec(rx, template, tname, content, file).value.code == Splice(content, Parts(template, 0), Matches(rx, content, 0), 0)
    ensures ReplaceSpec(rx, template, tname, content, file).Success? ==>
      var sources := ReplaceSpec(rx, template, tname, content, file).value.sourcesContent;
      (tname.Some? ==> sources[tname.value] == template) &&
      (tname != Some(file) ==> sources[file] == content)
  {
    MatchesFit(rx, content, 0);
    var ms := Matches(rx, content, 0);
    AssembleOutcome(content, file, Parts(template, 0), tname, ms, 0);
    var whole := Assemble(content, file, Parts(template, 0), tname, ms, 0);
    if whole.Success? {
      assert ReplaceSpec(rx, template, tname, content, file)
          == Success(Generated(file, Texts(whole.value), whole.value, Sources(file, content, tname, template)));
    } else {
      assert ReplaceSpec(rx, template, tname, content, file) == Failure(whole.error);
      var k :| 0 <= k < |ms| && !Resolves(Parts(template, 0), ms[k]);
      assert !(forall k :: 0 <= k < |Matches(rx, content, 0)| ==> Resolves(Parts(template, 0), Matches(rx, content, 0)[k]));
      assert !ReplaceSpec(rx, template, tname, content, file).Success?;
    }
  }

  /**
   * Every mapping `replace` produces points at line >= 1 and column >= 0 of
   * the content or of the template.
   */
  lemma ReplaceBounds(rx: Regex, template: string, tname: Option<string>, content: string, file: string)
    requires ExecSound(rx, content)
    ensures ReplaceSpec(rx, template, tname, content, file).Success? ==>
      AllWellPlaced(ReplaceSpec(rx, template, tname, content, file).value.mappings)
  {
    MatchesFit(rx, content, 0);
    AssembleBounds(content, file, Parts(template, 0), tname, Matches(rx, content, 0), 0);
  }

  /** `$0` is one reference, spanning the whole template, to the key `0`. */
  lemma WholeMatchToken()
    ensures FirstToken("$0", 0) == Some(Token(0, 2, "0"))
  {
    var t := "$0";
    assert t[0] == '$' && t[1] == '0';
    TokenGreedy(t, 0);
    assert TokenAt(t, 0).value.end == 2;
    assert t[1..2] == "0";
  }

  /** The template `$0` reads as the single reference to the whole match. */
  lemma WholeMatchParts()
    ensures Parts("$0", 0) == WholeMatch
  {
    var t := "$0";
    WholeMatchToken();
    PartsStep(t, 0);
    assert t[0..2] == "$0" && t[2..] == [];
    PartsNoDollar(t, 2);
    assert [Ref("0", "$0")] + [] == WholeMatch;
  }

  /**
   * `replace` with the template `$0` gives the content back, whatever the
   * regular expression matches: no character of the content is dropped or
   * repeated.
   */
  lemma ReplaceIdentity(rx: Regex, tname: Option<string>, content: string, file: string)
    requires ExecSound(rx, content)
    ensures ReplaceSpec(rx, "$0", tname, content, file).Success?
    ensures ReplaceSpec(rx, "$0", tname, content, file).value.code == content
  {
    MatchesFit(rx, content, 0);
    WholeMatchParts();
    SpliceIdentity(content, Matches(rx, content, 0), 0);
    ReplaceOutcome(rx, "$0", tname, content, file);
    assert content[0..] == content;
  }

  /**
   * Without a match the output is the content itself, mapped line by line to
   * its own places: one fragment per line segment, the first at line 1,
   * column 0, and each later one at column 0 of the next line.
   */
  lemma ReplaceUnmatched(rx: Regex, template: string, tname: Option<string>, content: string, file: string)
    requires ExecSound(rx, content) && Matches(rx, content, 0) == []
    ensures ReplaceSpec(rx, template, tname, content, file)
         == Success(Generated(file, content, Emit(Some(file), Cursor(1, 0), content), Sources(file, content, tname, template)))
  {
    EmitTexts(Some(file), Cursor(1, 0), content);
    assert content[..0] == [];
    assert content[0..] == content;
  }

  /** Text that follows `prefix` in content[i..j] lies in the content at i + |prefix|. */
  lemma SliceAt(content: string, i: nat, j: nat, prefix: string, text: string)
    requires i <= j <= |content| && |prefix| + |text| <= j - i
    requires content[i..j][..|prefix|] == prefix
    requires content[i..j][|prefix|..|prefix| + |text|] == text
    ensures prefix == content[i..i + |prefix|]
    ensures text == content[i + |prefix|..i + |prefix| + |text|]
  {
    var n, len, s := |prefix|, |text|, content[i..j];
    forall x | 0 <= x < n
      ensures prefix[x] == content[i + x]
    {
      assert prefix[x] == s[..n][x] == s[x];
    }
    forall x | 0 <= x < len
      ensures text[x] == content[i + n + x]
    {
      assert text[x] == s[n..n + len][x] == s[n + x];
    }
  }

  /** The place of offset i + n is the place of offset i moved over the n characters between them. */
  lemma AtForward(content: string, i: nat, n: nat)
    requires i + n <= |content|
    ensures At(content, i + n) == Forwarded(At(content, i), content[i..i + n])
  {
    ForwardedPrefix(Cursor(1, 0), content, i, i + n);
  }

  /**
   * Unmatched text maps to itself: fragment k of the text content[i..j] emitted
   * at its own place stands at the place in the content of its own first
   * character.
   */
  lemma EmitInPlace(file: Option<string>, content: string, i: nat, j: nat, k: nat)
    requires i <= j <= |content|
    requires k < |Emit(file, At(content, i), content[i..j])|
    ensures var fs := Emit(file, At(content, i), content[i..j]);
      i + |Texts(fs[..k])| + |fs[k].text| <= j
    ensures var fs := Emit(file, At(content, i), content[i..j]);
      var p := i + |Texts(fs[..k])|;
      fs[k].text == content[p..p + |fs[k].text|]
    ensures var fs := Emit(file, At(content, i), content[i..j]);
      Cursor(fs[k].line, fs[k].column) == At(content, i + |Texts(fs[..k])|)
  {
    var fs := Emit(file, At(content, i), content[i..j]);
    var prefix, f := Texts(fs[..k]), fs[k];
    EmitSlices(file, At(content, i), content[i..j], k);
    SliceAt(content, i, j, prefix, f.text);
    assert Cursor(f.line, f.column) == At(content, i + |prefix|) by {
      EmitAt(file, At(content, i), content[i..j], k);
      CursorAt(content, i, prefix, Cursor(f.line, f.column));
    }
  }

  /** The place reached over the first |prefix| characters of content[i..] is the place of offset i + |prefix|. */
  lemma CursorAt(content: string, i: nat, prefix: string, at: Cursor)
    requires i + |prefix| <= |content| && prefix == content[i..i + |prefix|]
    requires at == Forwarded(At(content, i), prefix)
    ensures at == At(content, i + |prefix|)
  {
    AtForward(content, i, |prefix|);
  }

  // ---------------------------------------------------------------------------
  // The Replacer class

  class Replacer {
    const regexp: Regex
    const template: string
    /** `$regexpName`: "regexp/" and the name given, or None when no name (or an empty one) was given. */
    const templateName: Option<string>

    constructor (regexp: Regex, template: string, regexpName: Option<string> := None)
      ensures this.regexp == regexp && this.template == template
      ensures regexpName == None || regexpName == Some([]) ==> templateName == None
      ensures regexpName != None && regexpName != Some([]) ==> templateName == Some("regexp/" + regexpName.value)
    {
      this.regexp := regexp;
      this.template := template;
      this.templateName := if regexpName == None || regexpName == Some([]) then None else Some("regexp/" + regexpName.value);
    }

    /**
     * `createReplaceNode`: the template filled in for match `m`, with the
     * values of references anchored where `pos` stands; `pos` does not move.
     */
    method CreateReplaceNode(pos: Position, m: RegexMatch) returns (r: Result<seq<Fragment>, Error>)
      ensures r == ExpandParts(Parts(template, 0), templateName, Cursor(1, 0), pos.file, pos.Here(), m)
    {
      var node := new SourceNode();
      var replacePos := new Position(templateName);
      ghost var anchor, file := pos.Here(), pos.file;
      ghost var target := ExpandParts(Parts(template, 0), templateName, Cursor(1, 0), file, anchor, m);
      ghost var done: seq<Fragment>, tc := [], Cursor(1, 0);
      var lastIndex: nat := 0;
      var tok := NextToken(template, 0);
      if target.Success? {
        assert [] + target.value == target.value;
      }
      while tok.Some?
        invariant lastIndex <= |template|
        invariant tok == FirstToken(template, lastIndex)
        invariant replacePos.file == templateName && replacePos.Here() == tc
        invariant node.fragments == done
        invariant Prepend(done, ExpandParts(Parts(template, lastIndex), templateName, tc, file, anchor, m)) == target
        decreases |template| - lastIndex
      {
        var t := tok.value;
        var value := Group(m, t.key);
        ghost var lit := template[lastIndex..t.start];
        ExpandStep(done, template, lastIndex, templateName, tc, file, anchor, m);
        if value.None? {
          return Failure(MissingGroup(t.key));
        }
        AddReference(node, replacePos, template[lastIndex..t.start], pos, value.value);
        done, tc := done + Emit(templateName, tc, lit) + Emit(file, anchor, value.value), Forwarded(tc, lit);
        lastIndex := t.end;
        tok := NextToken(template, lastIndex);
      }
      ExpandTail(done, template, lastIndex, templateName, tc, file, anchor, m);
      if lastIndex < |template| {
        replacePos.Add(node, template[lastIndex..]);
      } else {
        EmitTexts(templateName, tc, template[lastIndex..]);
        assert done + Emit(templateName, tc, template[lastIndex..]) == done;
      }
      r := Success(node.fragments);
    }

    /**
     * One turn of `createReplaceNode`'s loop: the literal text before a
     * reference, when there is any, at the template cursor, which moves over
     * it; then the group's value where `pos` stands, which does not move.
     */
    method AddReference(node: SourceNode, replacePos: Position, literal: string, pos: Position, value: string)
      requires replacePos != pos
      modifies node, replacePos
      ensures node.fragments == old(node.fragments) + Emit(replacePos.file, old(replacePos.Here()), literal) + Emit(pos.file, pos.Here(), value)
      ensures replacePos.file == old(replacePos.file) && replacePos.Here() == Forwarded(old(replacePos.Here()), literal)
      ensures node.sourceContents == old(node.sourceContents)
    {
      if literal != [] {
        replacePos.Add(node, literal);
      } else {
        EmitTexts(replacePos.file, replacePos.Here(), literal);
        ForwardedNoNewline(replacePos.Here(), literal);
        assert node.fragments + Emit(replacePos.file, replacePos.Here(), literal) == node.fragments;
      }
      pos.Add(node, value, false);
    }

    /**
     * `replace`: the content with every match replaced, and the source map
     * that leads each piece back to the content or the template.
     */
    method Replace(content: string, file: string := "content") returns (r: Result<Generated, Error>)
      requires ExecSound(regexp, content)
      ensures r == ReplaceSpec(regexp, template, templateName, content, file)
    {
      var filePos := new Position(Some(file));
      var node := new SourceNode();
      node.SetSourceContent(file, content);
      if templateName.Some? {
        node.SetSourceContent(templateName.value, template);
      }
      MatchesFit(regexp, content, 0);
      assert content[..0] == [];
      var matched := AddMatches(node, filePos, content, file);
      if matched.Failure? {
        return Failure(matched.error);
      }
      var lastIndex := matched.value;
      ghost var done := node.fragments;
      if lastIndex < |content| {
        ForwardedPrefix(Cursor(1, 0), content, lastIndex, |content|);
        filePos.Add(node, content[lastIndex..]);
      } else {
        EmitTexts(Some(file), filePos.Here(), content[lastIndex..]);
        assert done + Emit(Some(file), filePos.Here(), content[lastIndex..]) == done;
      }
      assert content[..|content|] == content;
      r := Success(Generated(file, node.Code(), node.fragments, node.sourceContents));
    }

    /**
     * The loop of `replace`: every match visited in turn, each added with the
     * unmatched text before it.  It ends after the last match with the index
     * where the rest of the content starts, or with the error that stopped it.
     */
    method AddMatches(node: SourceNode, filePos: Position, content: string, ghost file: string) returns (r: Result<nat, Error>)
      requires ExecSound(regexp, content) && Fits(Matches(regexp, content, 0), 0, content)
      requires filePos.file == Some(file) && filePos.Here() == At(content, 0) && node.fragments == []
      modifies node, filePos
      ensures var whole := Assemble(content, file, Parts(template, 0), templateName, Matches(regexp, content, 0), 0);
        if r.Failure? then whole == Failure(r.error)
        else
          r.value <= |content| && filePos.file == Some(file) && filePos.Here() == At(content, r.value) &&
          whole == Prepend(node.fragments, Assemble(content, file, Parts(template, 0), templateName, [], r.value))
      ensures node.sourceContents == old(node.sourceContents)
    {
      ghost var parts := Parts(template, 0);
      ghost var rest := Matches(regexp, content, 0);
      ghost var target := Assemble(content, file, parts, templateName, rest, 0);
      ghost var done := node.fragments;
      assert Prepend(done, target) == target by {
        if target.Success? {
          assert [] + target.value == target.value;
        }
      }
      var lastIndex: nat := 0;
      var engineLast: nat := 0;  // the `lastIndex` of the regular expression itself
      while true
        invariant Progress(regexp, content, file, parts, templateName, target, lastIndex, engineLast, rest, done)
        invariant filePos.file == Some(file) && filePos.Here() == At(content, lastIndex)
        invariant node.sourceContents == old(node.sourceContents)
        invariant node.fragments == done
        decreases |content| + 1 - engineLast
      {
        var found := regexp.exec(content, if regexp.global then engineLast else 0);
        if found.None? {
          ProgressDone(regexp, content, file, parts, templateName, target, lastIndex, engineLast, rest, done);
          break;
        }
        var m := found.value;
        ProgressStep(regexp, content, file, parts, templateName, target, lastIndex, engineLast, rest, done, m);
        var child := AddMatch(node, filePos, content, lastIndex, m);
        if child.Failure? {
          return Failure(child.error);
        }
        done := done + Emit(Some(file), At(content, lastIndex), content[lastIndex..m.index]) + child.value;
        rest := rest[1..];
        if regexp.global {
          engineLast := End(m);
        }
        lastIndex := if engineLast != 0 then engineLast else End(m);
        if |m.text| == 0 {
          engineLast := engineLast + 1;
        }
        if !regexp.global {
          r := Success(lastIndex);
          return;
        }
        assert lastIndex == End(m) && engineLast == NextSearch(m);
      }
      r := Success(lastIndex);
    }

    /**
     * One turn of `replace`'s loop for match `m`: the unmatched text since
     * `lastIndex`, when there is any, at its own place, then the template
     * filled in for `m`, after which the cursor stands after the match.
     */
    method AddMatch(node: SourceNode, filePos: Position, content: string, lastIndex: nat, m: RegexMatch)
      returns (r: Result<seq<Fragment>, Error>)
      requires FoundIn(m, content, lastIndex) && filePos.Here() == At(content, lastIndex)
      modifies node, filePos
      ensures r == ExpandParts(Parts(template, 0), templateName, Cursor(1, 0), old(filePos.file), At(content, m.index), m)
      ensures r.Success? ==>
        node.fragments == old(node.fragments) + Emit(old(filePos.file), At(content, lastIndex), content[lastIndex..m.index]) + r.value &&
        filePos.Here() == At(content, End(m))
      ensures filePos.file == old(filePos.file) && node.sourceContents == old(node.sourceContents)
    {
      if m.index > lastIndex {
        ForwardedPrefix(Cursor(1, 0), content, lastIndex, m.index);
        filePos.Add(node, content[lastIndex..m.index]);
      } else {
        EmitTexts(filePos.file, filePos.Here(), content[lastIndex..m.index]);
        assert node.fragments + Emit(filePos.file, filePos.Here(), content[lastIndex..m.index]) == node.fragments;
      }
      r := CreateReplaceNode(filePos, m);
      if r.Success? {
        node.Add(r.value);
        ForwardedPrefix(Cursor(1, 0), content, m.index, End(m));
        filePos.Forward(m.text);
      }
    }
  }
}
