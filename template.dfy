/**
 * The replacement template of a `Replacer`: the references `$n` and `${n}`
 * that `varMatcher` finds in it, the literal text between them, and the
 * lookup of a reference in a regular-expression match.
 */
module Templates {
  import opened Wrappers

  predicate IsDigit(ch: char)
  {
    '0' <= ch <= '9'
  }

  predicate IsDigits(s: string)
  {
    forall k :: 0 <= k < |s| ==> IsDigit(s[k])
  }

  /** The length of the longest run of digits that starts at t[i]. */
  function DigitRun(t: string, i: nat): (n: nat)
    requires i <= |t|
    decreases |t| - i
    ensures i + n <= |t|
    ensures IsDigits(t[i..i + n])
    ensures i + n == |t| || !IsDigit(t[i + n])
  {
    if i < |t| && IsDigit(t[i]) then
      var n := 1 + DigitRun(t, i + 1);
      assert t[i..i + n] == [t[i]] + t[i + 1..i + n];
      n
    else 0
  }

  /**
   * A reference found by `varMatcher` (`\$({(\d+)}|\d+)`): it spans
   * t[start..end] and names the group `key` (`varMatch[2] || varMatch[1]`).
   */
  datatype Token = Token(start: nat, end: nat, key: string)

  /**
   * The reference that starts at t[i], if any: `${` digits `}` first, else `$`
   * followed by as many digits as there are.
   */
  function TokenAt(t: string, i: nat): (r: Option<Token>)
    requires i <= |t|
    ensures r.Some? ==> r.value.start == i < r.value.end <= |t| && r.value.key != [] && IsDigits(r.value.key)
  {
    if i + 1 < |t| && t[i] == '$' then
      if t[i + 1] == '{' then
        var n := DigitRun(t, i + 2);
        if n > 0 && i + 2 + n < |t| && t[i + 2 + n] == '}' then
          Some(Token(i, i + 3 + n, t[i + 2..i + 2 + n]))
        else None
      else
        var n := DigitRun(t, i + 1);
        if n > 0 then
          Some(Token(i, i + 1 + n, t[i + 1..i + 1 + n]))
        else None
    else None
  }

  /** A reference is written `$` and its key, or `${`, its key and `}`. */
  lemma TokenText(t: string, i: nat)
    requires i <= |t| && TokenAt(t, i).Some?
    ensures t[i..TokenAt(t, i).value.end] == ['$'] + TokenAt(t, i).value.key ||
            t[i..TokenAt(t, i).value.end] == ['$', '{'] + TokenAt(t, i).value.key + ['}']
  {
    var tok := TokenAt(t, i).value;
    if t[i + 1] == '{' {
      assert t[i..tok.end] == ['$', '{'] + t[i + 2..tok.end - 1] + ['}'];
    } else {
      assert t[i..tok.end] == ['$'] + t[i + 1..tok.end];
    }
  }

  /**
   * The unbraced form is greedy: it takes every digit after the `$`, so `$10`
   * names group 10 and never group 1 followed by a literal `0`.  A `$` followed
   * by a digit always starts a reference.
   */
  lemma TokenGreedy(t: string, i: nat)
    requires i + 1 < |t| && t[i] == '$' && IsDigit(t[i + 1])
    ensures TokenAt(t, i).Some?
    ensures TokenAt(t, i).value.key == t[i + 1..TokenAt(t, i).value.end]
    ensures TokenAt(t, i).value.end == |t| || !IsDigit(t[TokenAt(t, i).value.end])
  {
  }

  /** A `$` that is followed neither by a digit nor by `{` digits `}` is literal text. */
  lemma NotAToken(t: string, i: nat)
    requires i + 1 < |t| && t[i] == '$' && !IsDigit(t[i + 1]) && t[i + 1] != '{'
    ensures TokenAt(t, i).None?
  {
  }

  /** `${`, a run of digits and `}` is always a reference, whose key is those digits. */
  lemma BracedToken(t: string, i: nat, n: nat)
    requires n > 0 && i + 2 + n < |t|
    requires t[i] == '$' && t[i + 1] == '{' && IsDigits(t[i + 2..i + 2 + n]) && t[i + 2 + n] == '}'
    ensures TokenAt(t, i) == Some(Token(i, i + 3 + n, t[i + 2..i + 2 + n]))
  {
    assert DigitRun(t, i + 2) == n;
  }

  /**
   * A `${` whose digits are missing (`${}`), or are not closed by `}` right
   * after them (`${1a}`, or the end of the text), is literal text: neither
   * alternative of the grammar matches there.
   */
  lemma UnclosedBrace(t: string, i: nat)
    requires i + 1 < |t| && t[i] == '$' && t[i + 1] == '{'
    requires var n := DigitRun(t, i + 2); n == 0 || i + 2 + n == |t| || t[i + 2 + n] != '}'
    ensures TokenAt(t, i).None?
  {
  }

  /** `varMatcher.exec` with its `lastIndex` at `from`: the leftmost reference at or after `from`. */
  function FirstToken(t: string, from: nat): (r: Option<Token>)
    requires from <= |t|
    decreases |t| - from
    ensures r.Some? ==> from <= r.value.start < |t| && TokenAt(t, r.value.start) == r
    ensures forall k :: from <= k < (if r.Some? then r.value.start else |t|) ==> TokenAt(t, k).None?
  {
    if from == |t| then None
    else if TokenAt(t, from).Some? then TokenAt(t, from)
    else FirstToken(t, from + 1)
  }

  /** A scan for the next reference, the loop inside `varMatcher.exec`. */
  method NextToken(t: string, from: nat) returns (r: Option<Token>)
    requires from <= |t|
    ensures r == FirstToken(t, from)
  {
    var i := from;
    while i < |t| && TokenAt(t, i).None?
      invariant from <= i <= |t|
      invariant FirstToken(t, i) == FirstToken(t, from)
    {
      i := i + 1;
    }
    r := if i < |t| then TokenAt(t, i) else None;
  }

  // ---------------------------------------------------------------------------
  // Template parts

  /** A template is literal text and references; `raw` is the reference as written. */
  datatype Part = Lit(text: string) | Ref(key: string, raw: string)

  /**
   * The parts of t[from..] in the order `createReplaceNode` visits them: the
   * literal text before each reference (when there is any), the reference,
   * and after the last reference the rest of the text (when there is any).
   */
  function Parts(t: string, from: nat): (ps: seq<Part>)
    requires from <= |t|
    decreases |t| - from
    ensures WellKeyed(ps)
  {
    match FirstToken(t, from)
    case Some(tok) =>
      (if from < tok.start then [Lit(t[from..tok.start])] else [])
      + [Ref(tok.key, t[tok.start..tok.end])]
      + Parts(t, tok.end)
    case None =>
      if from < |t| then [Lit(t[from..])] else []
  }

  /** Every reference names a group by a non-empty string of digits. */
  predicate WellKeyed(parts: seq<Part>)
  {
    forall k :: 0 <= k < |parts| && parts[k].Ref? ==> parts[k].key != [] && IsDigits(parts[k].key)
  }

  /** The template text the parts were read from. */
  function Render(parts: seq<Part>): string
  {
    if parts == [] then []
    else (match parts[0] case Lit(s) => s case Ref(_, raw) => raw) + Render(parts[1..])
  }

  lemma {:induction false} RenderAppend(a: seq<Part>, b: seq<Part>)
    ensures Render(a + b) == Render(a) + Render(b)
  {
    if a == [] {
      assert a + b == b;
    } else {
      assert (a + b)[1..] == a[1..] + b;
      RenderAppend(a[1..], b);
    }
  }

  lemma RenderThree(a: seq<Part>, b: seq<Part>, c: seq<Part>)
    ensures Render(a + b + c) == Render(a) + Render(b) + Render(c)
  {
    RenderAppend(a + b, c);
    RenderAppend(a, b);
  }

  /** Reading a template into parts loses nothing: rendering them gives the text back. */
  lemma {:induction false} PartsRender(t: string, from: nat)
    requires from <= |t|
    decreases |t| - from
    ensures Render(Parts(t, from)) == t[from..]
  {
    if FirstToken(t, from).Some? {
      var tok := FirstToken(t, from).value;
      PartsUnfold(t, from, tok);
      PartsRender(t, tok.end);
      var lit: seq<Part> := if from < tok.start then [Lit(t[from..tok.start])] else [];
      var ref := [Ref(tok.key, t[tok.start..tok.end])];
      RenderOne(ref[0]);
      if from < tok.start {
        RenderOne(lit[0]);
      }
      RenderThree(lit, ref, Parts(t, tok.end));
      SliceThree(t, from, tok.start, tok.end);
    } else if from < |t| {
      RenderOne(Lit(t[from..]));
    }
  }

  lemma RenderOne(p: Part)
    ensures Render([p]) == if p.Lit? then p.text else p.raw
  {
    assert [p][1..] == [];
  }

  lemma SliceThree(t: string, i: nat, j: nat, k: nat)
    requires i <= j <= k <= |t|
    ensures t[i..] == t[i..j] + t[j..k] + t[k..]
  {
  }

  /** One unfolding of Parts at a reference. */
  lemma PartsUnfold(t: string, from: nat, tok: Token)
    requires from <= |t| && FirstToken(t, from) == Some(tok)
    ensures tok.start < tok.end <= |t|
    ensures Parts(t, from) == (if from < tok.start then [Lit(t[from..tok.start])] else []) + [Ref(tok.key, t[tok.start..tok.end])] + Parts(t, tok.end)
  {
  }

  /** The parts from `from` on: the literal text before the next reference, the reference, the parts after it. */
  lemma PartsStep(t: string, from: nat)
    requires from <= |t| && FirstToken(t, from).Some?
    ensures var tok := FirstToken(t, from).value;
      var tail := [Ref(tok.key, t[tok.start..tok.end])] + Parts(t, tok.end);
      Parts(t, from) == if from < tok.start then [Lit(t[from..tok.start])] + tail else tail
  {
    var tok := FirstToken(t, from).value;
    PartsUnfold(t, from, tok);
    var lit: seq<Part> := if from < tok.start then [Lit(t[from..tok.start])] else [];
    PartsAssoc(lit, [Ref(tok.key, t[tok.start..tok.end])], Parts(t, tok.end));
  }

  lemma PartsAssoc(x: seq<Part>, y: seq<Part>, z: seq<Part>)
    ensures x + y + z == x + (y + z)
    ensures x == [] ==> x + y + z == y + z
  {
  }

  /** Every literal part is non-empty: two references with nothing between them yield no empty literal. */
  lemma {:induction false} PartsLiterals(t: string, from: nat)
    requires from <= |t|
    decreases |t| - from
    ensures forall k :: 0 <= k < |Parts(t, from)| && Parts(t, from)[k].Lit? ==> Parts(t, from)[k].text != []
  {
    match FirstToken(t, from)
    case Some(tok) =>
      PartsLiterals(t, tok.end);
      var ps := Parts(t, from);
      var n := if from < tok.start then 1 else 0;
      forall k | n + 1 <= k < |ps|
        ensures ps[k] == Parts(t, tok.end)[k - n - 1]
      {
      }
    case None =>
  }

  /** A template without `$` is one literal part (or none when it is empty). */
  lemma PartsNoDollar(t: string, from: nat)
    requires from <= |t| && '$' !in t[from..]
    ensures Parts(t, from) == if from < |t| then [Lit(t[from..])] else []
  {
  }

  // ---------------------------------------------------------------------------
  // Looking a reference up in a match

  /** The value of a string of decimal digits. */
  function DecimalValue(s: string): nat
  {
    if s == [] then 0 else 10 * DecimalValue(s[..|s| - 1]) + ((s[|s| - 1] as int - '0' as int) % 10)
  }

  lemma DecimalValueLeadingDigit(s: string)
    requires s != [] && IsDigits(s) && s[0] != '0'
    ensures DecimalValue(s) >= 1
  {
    if |s| > 1 {
      DecimalValueLeadingDigit(s[..|s| - 1]);
    }
  }

  /** One match of the regular expression: where it starts, its text, and its groups 1, 2, ... */
  datatype RegexMatch = RegexMatch(index: nat, text: string, captures: seq<Option<string>>)

  /**
   * `match[key]`, a property lookup on the match array: "0" is the whole match,
   * the canonical index n >= 1 is group n (None when the group took no part in
   * the match), and any other key, such as one with a leading zero or one past
   * the last group, is undefined.
   */
  function Group(m: RegexMatch, key: string): (r: Option<string>)
    requires key != [] && IsDigits(key)
    ensures r.Some? ==> DecimalString(DecimalValue(key)) == key
    ensures r.Some? ==> DecimalValue(key) <= |m.captures|
  {
    if key == "0" then
      CanonicalRoundTrip(key);
      Some(m.text)
    else if key[0] == '0' then None
    else
      DecimalValueLeadingDigit(key);
      CanonicalRoundTrip(key);
      if DecimalValue(key) <= |m.captures| then m.captures[DecimalValue(key) - 1] else None
  }

  /** The decimal digit for d < 10. */
  function Digit(d: nat): (ch: char)
    requires d < 10
    ensures IsDigit(ch) && (ch == '0' <==> d == 0)
  {
    ('0' as int + d) as char
  }

  /** The canonical decimal form of n, as JavaScript writes an array index. */
  function DecimalString(n: nat): string
  {
    if n < 10 then [Digit(n)] else DecimalString(n / 10) + [Digit(n % 10)]
  }

  /** The canonical form is a non-empty digit string that starts with `0` only for zero. */
  lemma {:induction false} DecimalStringShape(n: nat)
    ensures DecimalString(n) != [] && IsDigits(DecimalString(n))
    ensures DecimalString(n)[0] == '0' <==> n == 0
  {
    if n >= 10 {
      DecimalStringShape(n / 10);
    }
  }

  /** Reading the canonical form of n gives n back. */
  lemma {:induction false} DecimalValueString(n: nat)
    ensures DecimalValue(DecimalString(n)) == n
  {
    if n >= 10 {
      DecimalValueString(n / 10);
      var s := DecimalString(n);
      assert s[..|s| - 1] == DecimalString(n / 10);
    }
  }

  /** A digit string without a leading zero (or `0` itself) is the canonical form of its value. */
  lemma {:induction false} CanonicalRoundTrip(key: string)
    requires key != [] && IsDigits(key) && (key == "0" || key[0] != '0')
    ensures DecimalString(DecimalValue(key)) == key
  {
    var p, d := key[..|key| - 1], key[|key| - 1];
    var dv := d as int - '0' as int;
    if |key| == 1 {
      assert key == [d];
    } else {
      assert p[0] == key[0];
      assert IsDigits(p);
      CanonicalRoundTrip(p);
      DecimalValueLeadingDigit(p);
      var a := DecimalValue(p);
      assert DecimalValue(key) == 10 * a + dv;
      assert (10 * a + dv) / 10 == a && (10 * a + dv) % 10 == dv;
      assert key == p + [d];
    }
  }

  /**
   * `match[key]` is JavaScript's array-index rule on the match array
   * `[match[0], group 1, group 2, ...]`: element v when the key is the
   * canonical decimal form of an index v inside the array, and undefined
   * otherwise.
   */
  lemma GroupIsArrayIndex(m: RegexMatch, key: string)
    requires key != [] && IsDigits(key)
    ensures var arr := [Some(m.text)] + m.captures;
      var v := DecimalValue(key);
      Group(m, key) == if key == DecimalString(v) && v < |arr| then arr[v] else None
  {
    var v := DecimalValue(key);
    if key == "0" || key[0] != '0' {
      CanonicalRoundTrip(key);
      if key != "0" {
        DecimalValueLeadingDigit(key);
      }
    } else {
      DecimalStringShape(v);
    }
  }
}
