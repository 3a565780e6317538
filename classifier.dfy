/**
 * Line classification: comment stripping and trimming, then the split of a
 * line into an optional `label:`, an opcode and up to two operands.
 *
 * The source does the split with one regular expression whose parts are all
 * optional, `(?:(\w+?):)?\s*(?:(\w+)\s*(?:(\w+)(?:\s*,\s*(\w+))?)?)?`. It
 * therefore always matches at the start of the line, and its captures are
 * those of a greedy left-to-right scan, which `Match` performs.
 */
module Classifier {
  import opened Wrappers
  import opened Text

  /**
   * The captures of one line: label, opcode, operands (raw case), and the
   * text after the opcode and its following whitespace, which DS and DB take
   * as their argument.
   */
  datatype Fields = Fields(
    symbol: Option<string>,
    opcode: Option<string>,
    opA: Option<string>,
    opB: Option<string>,
    data: string)

  /** A source line with its comment removed and its surrounding whitespace trimmed. */
  function Clean(input: string): (s: string)
    ensures s == [] <==> AllSpace(StripComment(input))
    ensures s != [] ==> !IsSpace(s[0]) && !IsSpace(s[|s| - 1])
    ensures var c := StripComment(input);
      exists i, j :: 0 <= i <= j <= |c| && s == c[i..j] && AllSpace(c[..i]) && AllSpace(c[j..])
  {
    Trim(StripComment(input))
  }

  /** The end of the run of word characters starting at `i` (the reach of a greedy `\w*`). */
  function WordEnd(s: string, i: nat): (j: nat)
    requires i <= |s|
    ensures i <= j <= |s|
    ensures forall k :: i <= k < j ==> IsWordChar(s[k])
    ensures j == |s| || !IsWordChar(s[j])
    decreases |s| - i
  {
    if i < |s| && IsWordChar(s[i]) then WordEnd(s, i + 1) else i
  }

  /** The end of the run of whitespace starting at `i` (the reach of a greedy `\s*`). */
  function SpaceEnd(s: string, i: nat): (j: nat)
    requires i <= |s|
    ensures i <= j <= |s|
    ensures forall k :: i <= k < j ==> IsSpace(s[k])
    ensures j == |s| || !IsSpace(s[j])
    decreases |s| - i
  {
    if i < |s| && IsSpace(s[i]) then SpaceEnd(s, i + 1) else i
  }

  /** The word `s[i..j]` that a greedy `\w+` captured. */
  lemma WordSlice(s: string, i: nat, j: nat)
    requires i < j <= |s|
    requires forall k :: i <= k < j ==> IsWordChar(s[k])
    ensures IsWord(s[i..j])
  {
    forall k | 0 <= k < j - i ensures IsWordChar(s[i..j][k]) {
      assert s[i..j][k] == s[i + k];
    }
  }

  /** `a` is what remains of `s` after some of its front has been consumed. */
  predicate IsSuffix(a: string, s: string) {
    |a| <= |s| && a == s[|s| - |a|..]
  }

  lemma SuffixTrans(a: string, b: string, c: string)
    requires IsSuffix(a, b) && IsSuffix(b, c)
    ensures IsSuffix(a, c)
  {
    assert c[|c| - |b|..][|b| - |a|..] == c[|c| - |a|..];
  }

  /** What is left after a greedy `\s*` at the start of `s`. */
  function SkipSpace(s: string): (r: string)
    ensures IsSuffix(r, s)
    ensures r == [] || !IsSpace(r[0])
    ensures AllSpace(s[..|s| - |r|])
  {
    var k := SpaceEnd(s, 0);
    assert |s| - |s[k..]| == k;
    s[k..]
  }

  /**
   * The label capture `(?:(\w+?):)?` and the `\s*` after it: the label, if
   * any, and the text where the opcode may start. The lazy `\w+?` followed
   * by `:` can only end at the first non-word character, so it takes the
   * whole leading word when a `:` follows it.
   */
  function ScanLabel(s: string): (r: (Option<string>, string))
    ensures IsSuffix(r.1, s)
    ensures r.1 == [] || !IsSpace(r.1[0])
    ensures r.0.Some? ==> IsWord(r.0.value) && |r.0.value| < |s|
    ensures r.0.Some? ==> s[..|r.0.value|] == r.0.value && s[|r.0.value|] == ':'
  {
    var labelEnd := WordEnd(s, 0);
    if 0 < labelEnd < |s| && s[labelEnd] == ':' then
      WordSlice(s, 0, labelEnd);
      assert s[..labelEnd] == s[0..labelEnd];
      var after := s[labelEnd + 1..];
      SuffixTrans(SkipSpace(after), after, s);
      (Some(s[..labelEnd]), SkipSpace(after))
    else (None, SkipSpace(s))
  }

  /** The operand captures `(\w+)(?:\s*,\s*(\w+))?` tried at the start of `t`. */
  function ScanOperands(t: string): (r: (Option<string>, Option<string>))
    ensures r.0.Some? ==> IsWord(r.0.value)
    ensures r.1.Some? ==> r.0.Some? && IsWord(r.1.value)
  {
    var e := WordEnd(t, 0);
    if e == 0 then (None, None)
    else
      WordSlice(t, 0, e);
      assert t[0..e] == t[..e];
      (Some(t[..e]), SecondOperand(t[e..]))
  }

  /** The capture of `(?:\s*,\s*(\w+))?` tried at the start of `u`: the second operand, if any. */
  function SecondOperand(u: string): (r: Option<string>)
    ensures r.Some? ==> IsWord(r.value)
  {
    var v := SkipSpace(u);
    if v != [] && v[0] == ',' then
      var x := SkipSpace(v[1..]);
      var e := WordEnd(x, 0);
      if e > 0 then
        WordSlice(x, 0, e);
        assert x[0..e] == x[..e];
        Some(x[..e])
      else None
    else None
  }

  /**
   * The opcode capture `(\w+)` and the `\s*` after it, tried at the start
   * of `t`: the opcode, if any, and the text after it and its whitespace.
   */
  function ScanOpcode(t: string): (r: (Option<string>, string))
    ensures r.0.Some? ==> IsWord(r.0.value)
    ensures r.0.None? ==> r.1 == []
    ensures IsSuffix(r.1, t)
    ensures r.1 == [] || !IsSpace(r.1[0])
  {
    var e := WordEnd(t, 0);
    if e == 0 then (None, [])
    else
      WordSlice(t, 0, e);
      assert t[0..e] == t[..e];
      var data := SkipSpace(t[e..]);
      SuffixTrans(data, t[e..], t);
      (Some(t[..e]), data)
  }

  /** The captures of the line regular expression, matched at the start of `s`. */
  function Match(s: string): (f: Fields)
    ensures f.symbol.Some? ==> IsWord(f.symbol.value) && |f.symbol.value| < |s|
    ensures f.symbol.Some? ==> s[..|f.symbol.value|] == f.symbol.value && s[|f.symbol.value|] == ':'
    ensures f.opcode.Some? ==> IsWord(f.opcode.value)
    ensures f.opA.Some? ==> f.opcode.Some? && IsWord(f.opA.value)
    ensures f.opB.Some? ==> f.opA.Some? && IsWord(f.opB.value)
    ensures f.opcode.None? ==> f.data == []
    ensures IsSuffix(f.data, s)
    ensures f.data != [] ==> !IsSpace(f.data[0])
  {
    var front := ScanLabel(s);
    var op := ScanOpcode(front.1);
    SuffixTrans(op.1, front.1, s);
    var operands := if op.0.Some? then ScanOperands(op.1) else (None, None);
    Fields(front.0, op.0, operands.0, operands.1, op.1)
  }

  /** A greedy `\w*` at `i` stops exactly after the word `w` written there. */
  lemma {:induction false} WordEndAt(s: string, i: nat, w: string)
    requires i + |w| <= |s| && s[i..i + |w|] == w
    requires forall k :: 0 <= k < |w| ==> IsWordChar(w[k])
    requires i + |w| == |s| || !IsWordChar(s[i + |w|])
    ensures WordEnd(s, i) == i + |w|
    decreases |w|
  {
    if w != [] {
      assert s[i] == w[0];
      assert s[i + 1..i + 1 + |w[1..]|] == w[1..];
      WordEndAt(s, i + 1, w[1..]);
    }
  }

  /** A greedy `\s*` at `i` stops after `n` whitespace characters when the next one is not whitespace. */
  lemma {:induction false} SpaceEndAt(s: string, i: nat, n: nat)
    requires i + n <= |s|
    requires forall k :: i <= k < i + n ==> IsSpace(s[k])
    requires i + n == |s| || !IsSpace(s[i + n])
    ensures SpaceEnd(s, i) == i + n
    decreases n
  {
    if n > 0 {
      SpaceEndAt(s, i + 1, n - 1);
    }
  }

  /** A greedy `\w*` at the start of `w + t` takes exactly the word characters `w` when `t` does not continue them. */
  lemma WordPrefix(w: string, t: string)
    requires forall k :: 0 <= k < |w| ==> IsWordChar(w[k])
    requires t == [] || !IsWordChar(t[0])
    ensures WordEnd(w + t, 0) == |w|
    ensures (w + t)[..|w|] == w && (w + t)[|w|..] == t
  {
    assert (w + t)[0..|w|] == w;
    if t != [] {
      assert (w + t)[|w|] == t[0];
    }
    WordEndAt(w + t, 0, w);
  }

  /** A greedy `\s*` at the start of `w + t` takes exactly the whitespace `w` when `t` does not continue it. */
  lemma SpacePrefix(w: string, t: string)
    requires AllSpace(w)
    requires t == [] || !IsSpace(t[0])
    ensures SkipSpace(w + t) == t
  {
    if t != [] {
      assert (w + t)[|w|] == t[0];
    }
    SpaceEndAt(w + t, 0, |w|);
    assert (w + t)[|w|..] == t;
  }

  /** A line starting with a word directly followed by `:` at position `k`: what `(\w+?):` at the start matches. */
  predicate LabelAt(s: string, k: int) {
    0 < k < |s| && s[k] == ':' && forall i :: 0 <= i < k ==> IsWordChar(s[i])
  }

  /** The label scan finds a label exactly when the line starts with a word and `:`. */
  lemma LabelExists(s: string)
    ensures ScanLabel(s).0.Some? <==> exists k :: LabelAt(s, k)
  {
    if k :| LabelAt(s, k) {
      LabelFound(s, k);
    }
    if ScanLabel(s).0.Some? {
      LabelScanned(s);
    }
  }

  /** A leading word directly followed by `:` is captured as the label. */
  lemma LabelFound(s: string, k: int)
    requires LabelAt(s, k)
    ensures ScanLabel(s).0.Some?
  {
    assert s[0..k] == s[..k];
    WordEndAt(s, 0, s[..k]);
  }

  /** A captured label is a leading word directly followed by `:`. */
  lemma LabelScanned(s: string)
    requires ScanLabel(s).0.Some?
    ensures LabelAt(s, |ScanLabel(s).0.value|)
  {
    var name := ScanLabel(s).0.value;
    assert forall i :: 0 <= i < |name| ==> s[i] == name[i];
  }


  /**
   * A source line laid out by its parts: an optional `LABEL:`, whitespace,
   * an optional opcode, whitespace, optional operands `A` or `A , B` with
   * whitespace around the comma, then any remaining text.
   */
  datatype Layout = Layout(
    symbol: Option<string>, lead: string, opcode: Option<string>, gap: string,
    opA: Option<string>, beforeComma: string, afterComma: string, opB: Option<string>, rest: string)
  {
    function Head(): string {
      if symbol.Some? then symbol.value + ":" else ""
    }

    function Op(): string {
      if opcode.Some? then opcode.value else ""
    }

    /** The operand text: `A`, `A , B` with its whitespace, or nothing. */
    function Operands(): string {
      if opA.None? then ""
      else opA.value + (if opB.Some? then beforeComma + ("," + (afterComma + opB.value)) else "")
    }

    /** Everything after the opcode's following whitespace. */
    function Tail(): string {
      Operands() + rest
    }

    function Text(): string {
      Head() + (lead + (Op() + (gap + Tail())))
    }

    /**
     * The parts are what the regular expression's groups can capture, and
     * each whitespace run and word is maximal: nothing after a part could
     * have extended it, and a line without a label does not start with a
     * word and `:`.
     */
    ghost predicate Separated() {
      (symbol.Some? ==> IsWord(symbol.value))
      && AllSpace(lead) && AllSpace(gap) && AllSpace(beforeComma) && AllSpace(afterComma)
      && (opcode.Some? ==> IsWord(opcode.value))
      && (opcode.None? ==> opA.None? && gap == [])
      && (opA.Some? ==> IsWord(opA.value) && gap != [])
      && (opB.Some? ==> opA.Some? && IsWord(opB.value))
      && (opA.None? ==> rest == [] || (!IsSpace(rest[0]) && !IsWordChar(rest[0])))
      && (opA.Some? && opB.None? ==> rest == [] || (!IsWordChar(rest[0]) && SecondOperand(rest).None?))
      && (opB.Some? ==> rest == [] || !IsWordChar(rest[0]))
      && (symbol.None? && lead == [] && gap == [] && opcode.Some? ==> rest == [] || rest[0] != ':')
    }
  }

  /** The operand scan of a laid-out line's tail finds its operands. */
  lemma OperandsScan(l: Layout)
    requires l.Separated()
    ensures ScanOperands(l.Tail()) == (l.opA, l.opB)
  {
    var t := l.Tail();
    if l.opA.None? {
      assert t == l.rest;
      assert WordEnd(t, 0) == 0;
    } else {
      var a := l.opA.value;
      var v := if l.opB.Some? then l.beforeComma + ("," + (l.afterComma + (l.opB.value + l.rest))) else l.rest;
      assert t == a + v;
      assert v == [] || !IsWordChar(v[0]) by {
        if l.opB.Some? && l.beforeComma != [] {
          assert v[0] == l.beforeComma[0];
        }
      }
      WordPrefix(a, v);
      if l.opB.Some? {
        SecondScan(l.beforeComma, l.afterComma, l.opB.value, l.rest);
      }
    }
  }

  /** `\s*,\s*(\w+)` at the start of `w3 , w4 B rest` captures `B`. */
  lemma SecondScan(w3: string, w4: string, b: string, rest: string)
    requires IsWord(b) && AllSpace(w3) && AllSpace(w4)
    requires rest == [] || !IsWordChar(rest[0])
    ensures SecondOperand(w3 + ("," + (w4 + (b + rest)))) == Some(b)
  {
    var x := b + rest;
    var v := "," + (w4 + x);
    SpacePrefix(w3, v);
    assert v[1..] == w4 + x;
    assert x[0] == b[0];
    SpacePrefix(w4, x);
    WordPrefix(b, rest);
  }

  /** The label scan of a laid-out line finds its label and leaves the text from the opcode on. */
  lemma LabelScan(l: Layout)
    requires l.Separated()
    ensures ScanLabel(l.Text()) == (l.symbol, l.Op() + (l.gap + l.Tail()))
  {
    var t2 := l.Op() + (l.gap + l.Tail());
    OpStart(l);
    if l.symbol.Some? {
      LabelScanSome(l, t2);
    } else {
      NoLabelScan(l, t2);
    }
  }

  /** The text from a laid-out line's opcode on does not start with whitespace. */
  lemma OpStart(l: Layout)
    requires l.Separated()
    ensures var t2 := l.Op() + (l.gap + l.Tail()); t2 == [] || !IsSpace(t2[0])
  {
    var t2 := l.Op() + (l.gap + l.Tail());
    if l.opcode.Some? {
      assert t2[0] == l.opcode.value[0];
    } else {
      assert t2 == l.rest;
    }
  }

  /** With a label, the label scan takes it and skips the whitespace after its `:`. */
  lemma LabelScanSome(l: Layout, t2: string)
    requires l.Separated() && l.symbol.Some?
    requires t2 == l.Op() + (l.gap + l.Tail())
    requires t2 == [] || !IsSpace(t2[0])
    ensures ScanLabel(l.Text()) == (l.symbol, t2)
  {
    assert l.Text() == l.symbol.value + (":" + (l.lead + t2));
    LabelThen(l.symbol.value, l.lead, t2);
  }

  /** Without a label, the label scan only skips the leading whitespace. */
  lemma NoLabelScan(l: Layout, t2: string)
    requires l.Separated() && l.symbol.None?
    requires t2 == l.Op() + (l.gap + l.Tail())
    requires t2 == [] || !IsSpace(t2[0])
    ensures ScanLabel(l.Text()) == (None, t2)
  {
    var s := l.Text();
    assert s == l.lead + t2;
    SpacePrefix(l.lead, t2);
    if l.lead != [] {
      assert !IsWordChar(s[0]);
      assert WordEnd(s, 0) == 0;
    } else {
      NoLabelAtOpcode(l);
    }
  }

  /** A line `NAME: ws t` has the label `NAME`, and the opcode may start at `t`. */
  lemma LabelThen(name: string, ws: string, t: string)
    requires IsWord(name) && AllSpace(ws)
    requires t == [] || !IsSpace(t[0])
    ensures ScanLabel(name + (":" + (ws + t))) == (Some(name), t)
  {
    var after := ws + t;
    WordPrefix(name, ":" + after);
    assert (":" + after)[1..] == after;
    SpacePrefix(ws, t);
  }

  /** A laid-out line without a label or leading whitespace does not start with a word and `:`. */
  lemma NoLabelAtOpcode(l: Layout)
    requires l.Separated() && l.symbol.None? && l.lead == []
    ensures var s := l.Text(); var e := WordEnd(s, 0); !(0 < e < |s| && s[e] == ':')
  {
    var s := l.Text();
    var t3 := l.gap + l.Tail();
    assert t3 == [] || !IsWordChar(t3[0]) by {
      if l.gap != [] { assert t3[0] == l.gap[0]; } else { assert t3 == l.rest; }
    }
    assert s == l.Op() + t3;
    WordPrefix(l.Op(), t3);
    if |l.Op()| < |s| {
      assert s[|l.Op()|] == t3[0];
      if l.gap == [] {
        assert t3 == l.rest;
      }
    }
  }

  /**
   * Classifying any laid-out line recovers its label, opcode and operands,
   * whatever whitespace separates them and whatever follows them; the DS/DB
   * argument is everything after the opcode and its whitespace.
   */
  lemma MatchLayout(l: Layout)
    requires l.Separated()
    ensures Match(l.Text()) == Fields(l.symbol, l.opcode, l.opA, l.opB, if l.opcode.Some? then l.Tail() else [])
  {
    LabelScan(l);
    OpcodeScan(l);
    if l.opcode.Some? {
      OperandsScan(l);
    }
  }

  /** The opcode scan of a laid-out line finds its opcode and leaves its operands and the rest. */
  lemma OpcodeScan(l: Layout)
    requires l.Separated()
    ensures ScanOpcode(l.Op() + (l.gap + l.Tail())) == (l.opcode, if l.opcode.Some? then l.Tail() else [])
  {
    var t3 := l.gap + l.Tail();
    assert t3 == [] || !IsWordChar(t3[0]) by {
      if l.gap != [] { assert t3[0] == l.gap[0]; } else { assert t3 == l.rest; }
    }
    WordPrefix(l.Op(), t3);
    if l.opcode.Some? {
      assert l.Tail() == [] || !IsSpace(l.Tail()[0]) by {
        if l.opA.Some? { assert l.Tail()[0] == l.opA.value[0]; } else { assert l.Tail() == l.rest; }
      }
      SpacePrefix(l.gap, l.Tail());
    }
  }

  /** Character equality ignoring ASCII case, as under the regular-expression flag `i`. */
  predicate SameLetter(a: char, b: char) {
    UpperChar(a) == UpperChar(b)
  }

  /** The first position at or after `from` where `pat` occurs in `s`, ignoring case. */
  function FindCaseless(s: string, pat: string, from: nat): (r: Option<nat>)
    ensures r.Some? ==> from <= r.value && r.value + |pat| <= |s|
    decreases |s| - from
  {
    if from + |pat| > |s| then None
    else if FoundAt(s, pat, from) then Some(from)
    else FindCaseless(s, pat, from + 1)
  }

  /** `pat` occurs in `s` at `from`, ignoring case. */
  predicate FoundAt(s: string, pat: string, from: nat) {
    from + |pat| <= |s| && forall k :: 0 <= k < |pat| ==> SameLetter(s[from + k], pat[k])
  }

  /** `t` starts with `pat`, ignoring case. */
  predicate StartsCaseless(t: string, pat: string) {
    |pat| <= |t| && forall k :: 0 <= k < |pat| ==> SameLetter(t[k], pat[k])
  }

  /**
   * `\s*P\s*(.+)` with flag `i`, tried at the start of `t`, where `P` is
   * `pseudo`: the text `(.+)` captures, if the pattern matches there. The
   * greedy `\s*` after `P` gives back one whitespace character when nothing
   * else is left for `.+`; the one before `P` never gives any back, since
   * `P` starts with a letter.
   */
  function PseudoTail(t: string, pseudo: string): (r: Option<string>)
    ensures r.Some? ==> r.value != [] && IsSuffix(r.value, t)
  {
    var v := SkipSpace(t);
    var r := AfterSpace(v, pseudo);
    if r.Some? then SuffixTrans(r.value, v, t); r else None
  }

  /** `P\s*(.+)` with flag `i` at the start of `v`, which starts with a non-space. */
  function AfterSpace(v: string, pseudo: string): (r: Option<string>)
    ensures r.Some? ==> r.value != [] && IsSuffix(r.value, v)
  {
    if StartsCaseless(v, pseudo) then
      var x := v[|pseudo|..];
      var y := SkipSpace(x);
      if y != [] then
        SuffixTrans(y, x, v);
        Some(y)
      else if x != [] then
        SuffixTrans(x[|x| - 1..], x, v);
        Some(x[|x| - 1..])
      else None
    else None
  }

  /**
   * The search pattern tried at the start of `t` with its optional label
   * `(\w+?):` present. The lazy `\w+?` cannot reach past a non-word
   * character, so the only `:` it can stop at ends the leading word.
   */
  function LabelRoute(t: string, pseudo: string): (r: Option<string>)
    ensures r.Some? ==> r.value != [] && IsSuffix(r.value, t)
  {
    var e := WordEnd(t, 0);
    if 0 < e < |t| && t[e] == ':' then
      var after := t[e + 1..];
      var r := PseudoTail(after, pseudo);
      if r.Some? then SuffixTrans(r.value, after, t); r else None
    else None
  }

  /** `(?:(\w+?):)?\s*P\s*(.+)` tried at the start of `t`: with the label first, then without it. */
  function PseudoAt(t: string, pseudo: string): (r: Option<string>)
    ensures r.Some? ==> r.value != [] && IsSuffix(r.value, t)
  {
    var l := LabelRoute(t, pseudo);
    if l.Some? then l else PseudoTail(t, pseudo)
  }

  /**
   * The DS/DB argument as the source obtains it: the capture of
   * `regexDS`/`regexDB`, `(?:(\w+?):)?\s*DS\s*(.+)` with flag `i`, which
   * is not anchored and is therefore tried at each position of the line `s`
   * in turn; the first position where it matches gives the capture.
   */
  function PseudoDataAsWritten(s: string, pseudo: string): (r: Option<string>)
    ensures r.Some? ==> r.value != [] && IsSuffix(r.value, s)
    decreases |s|
  {
    var here := PseudoAt(s, pseudo);
    if here.Some? then here
    else if s == [] then None
    else
      var r := PseudoDataAsWritten(s[1..], pseudo);
      if r.Some? then SuffixTrans(r.value, s[1..], s); r else None
  }

  /**
   * The outcome of that search on a line whose opcode is `pseudo`: with text
   * after the opcode, that text; with nothing after it, a match inside the
   * label, at the first `DS` (or `DB`) in it in any case, followed by the
   * rest of the line.
   */
  function PseudoDataCases(s: string, pseudo: string): Option<string> {
    var f := Match(s);
    if f.data != [] then Some(f.data)
    else if f.symbol.Some? then InLabel(s, f.symbol.value, pseudo)
    else None
  }

  /** What follows the first `pseudo` in the label `name` at the start of `s`, ignoring case. */
  function InLabel(s: string, name: string, pseudo: string): Option<string>
    requires |name| <= |s|
  {
    match FindCaseless(name, pseudo, 0)
    case Some(p) => Some(s[p + |pseudo|..])
    case None => None
  }


  /** `op` spells `pseudo` when case is ignored. */
  predicate Spells(op: string, pseudo: string) {
    |op| == |pseudo| && StartsCaseless(op, pseudo)
  }

  /** Upper-case letters only: no `:` and no whitespace is the same letter as one of them. */
  predicate Letters(p: string) {
    forall k :: 0 <= k < |p| ==> 'A' <= p[k] <= 'Z'
  }

  /**
   * On a trimmed line whose upper-cased opcode is `DS` (or `DB`), the
   * search finds the text after the opcode when there is any, and otherwise
   * the match inside the label, if any.
   */
  lemma PseudoSearch(s: string, pseudo: string)
    requires pseudo == "DS" || pseudo == "DB"
    requires s != [] ==> !IsSpace(s[0]) && !IsSpace(s[|s| - 1])
    requires Match(s).opcode.Some? && Upper(Match(s).opcode.value) == pseudo
    ensures PseudoDataAsWritten(s, pseudo) == PseudoDataCases(s, pseudo)
  {
    var f := Match(s);
    OpcodeSpells(f.opcode.value, pseudo);
    PseudoLetters(pseudo);
    if f.data != [] {
      SearchWithData(s, pseudo);
    } else {
      SearchWithoutData(s, pseudo);
    }
  }

  lemma PseudoLetters(pseudo: string)
    requires pseudo == "DS" || pseudo == "DB"
    ensures Letters(pseudo) && |pseudo| == 2
  {
  }

  /** With text after the opcode, the search matches at the start of the line and captures that text. */
  lemma SearchWithData(s: string, pseudo: string)
    requires Match(s).opcode.Some? && Spells(Match(s).opcode.value, pseudo) && Match(s).data != []
    ensures PseudoDataAsWritten(s, pseudo) == Some(Match(s).data)
  {
    var t := ScanLabel(s).1;
    MatchParts(s);
    OpcodeTail(t, Match(s).opcode.value, pseudo);
    StartRoute(s, pseudo);
  }

  /** With nothing after the opcode of a trimmed line, the search matches only inside the label. */
  lemma SearchWithoutData(s: string, pseudo: string)
    requires s != [] ==> !IsSpace(s[0]) && !IsSpace(s[|s| - 1])
    requires Letters(pseudo) && |pseudo| == 2
    requires Match(s).opcode.Some? && Spells(Match(s).opcode.value, pseudo) && Match(s).data == []
    ensures PseudoDataAsWritten(s, pseudo) == PseudoDataCases(s, pseudo)
  {
    if Match(s).symbol.Some? {
      SearchInLabel(s, pseudo);
    } else {
      var w := EmptyDataShape(s);
      OpcodeOnly(Match(s).opcode.value, pseudo);
    }
  }

  /** The search on `LABEL: w OP`, with nothing after the opcode, is the caseless search for `DS` (or `DB`) in the label. */
  lemma SearchInLabel(s: string, pseudo: string)
    requires s != [] ==> !IsSpace(s[0]) && !IsSpace(s[|s| - 1])
    requires Letters(pseudo) && |pseudo| == 2
    requires Match(s).opcode.Some? && Spells(Match(s).opcode.value, pseudo) && Match(s).data == []
    requires Match(s).symbol.Some?
    ensures PseudoDataAsWritten(s, pseudo) == InLabel(s, Match(s).symbol.value, pseudo)
  {
    var w := EmptyDataShape(s);
    LabelSearchWhole(s, Match(s).symbol.value, w, Match(s).opcode.value, pseudo);
  }

  /** The search over a whole line `NAME: ws OP` whose opcode spells `pseudo`. */
  lemma LabelSearchWhole(s: string, name: string, w: string, op: string, pseudo: string)
    requires s == name + (":" + (w + op))
    requires IsWord(name) && AllSpace(w) && IsWord(op) && Spells(op, pseudo)
    requires Letters(pseudo) && |pseudo| == 2
    ensures PseudoDataAsWritten(s, pseudo) == InLabel(s, name, pseudo)
  {
    LabelSearchStart(s, name, w, op, pseudo);
    InLabelTwo(s, name, pseudo);
  }

  /** The search from the first position of `NAME: ws OP`. */
  lemma LabelSearchStart(s: string, name: string, w: string, op: string, pseudo: string)
    requires s == name + (":" + (w + op))
    requires IsWord(name) && AllSpace(w) && IsWord(op) && Spells(op, pseudo)
    requires Letters(pseudo) && |pseudo| == 2
    ensures PseudoDataAsWritten(s, pseudo)
      == AfterFound(s, FindCaseless(name, pseudo, 0))
  {
    LabelSearchFrom(s, name, w, op, pseudo, 0);
    assert s[0..] == s;
  }

  lemma InLabelTwo(s: string, name: string, pseudo: string)
    requires |name| <= |s| && |pseudo| == 2
    ensures InLabel(s, name, pseudo) == AfterFound(s, FindCaseless(name, pseudo, 0))
  {
  }

  /** The text of `s` after a two-letter match found at `found`, if one was found. */
  function AfterFound(s: string, found: Option<nat>): Option<string>
    requires found.Some? ==> found.value + 2 <= |s|
  {
    match found
    case Some(p) => Some(s[p + 2..])
    case None => None
  }


  /** An opcode that upper-cases to `pseudo` spells `pseudo` ignoring case. */
  lemma OpcodeSpells(op: string, pseudo: string)
    requires Upper(op) == pseudo
    ensures Spells(op, pseudo)
  {
    UpperUnique(op, pseudo);
  }

  /** A text that starts with something other than whitespace is left whole by `\s*`. */
  lemma SkipNothing(t: string)
    requires t == [] || !IsSpace(t[0])
    ensures SkipSpace(t) == t
  {
    SpacePrefix([], t);
    assert [] + t == t;
  }

  /** The bare pattern starts with `\s*`, so leading whitespace does not change what it captures. */
  lemma TailSkip(a: string, pseudo: string)
    ensures PseudoTail(a, pseudo) == PseudoTail(SkipSpace(a), pseudo)
  {
    var v := SkipSpace(a);
    SkipNothing(v);
    TailUnfold(a, pseudo);
    TailUnfold(v, pseudo);
  }

  /** The bare pattern is `P\s*(.+)` tried past the leading whitespace. */
  lemma TailUnfold(t: string, pseudo: string)
    ensures PseudoTail(t, pseudo) == AfterSpace(SkipSpace(t), pseudo)
  {
  }

  /** The search at the start of a line is the bare pattern tried where the label scan stops, when that matches. */
  lemma StartRoute(s: string, pseudo: string)
    requires PseudoTail(ScanLabel(s).1, pseudo).Some?
    ensures PseudoAt(s, pseudo) == PseudoTail(ScanLabel(s).1, pseudo)
  {
    var e := WordEnd(s, 0);
    if 0 < e < |s| && s[e] == ':' {
      TailSkip(s[e + 1..], pseudo);
    } else {
      TailSkip(s, pseudo);
    }
  }

  /**
   * The bare pattern at a word spelling `pseudo`: `(.+)` captures what
   * follows the word and its whitespace, or the last whitespace character
   * when only whitespace follows, and nothing when nothing follows.
   */
  lemma TailOfWord(op: string, r: string, pseudo: string)
    requires IsWord(op) && Spells(op, pseudo)
    ensures PseudoTail(op + r, pseudo)
      == if SkipSpace(r) != [] then Some(SkipSpace(r)) else if r != [] then Some(r[|r| - 1..]) else None
  {
    var t := op + r;
    assert t[0] == op[0];
    SkipNothing(t);
    assert StartsCaseless(t, pseudo) by {
      forall k | 0 <= k < |pseudo| ensures SameLetter(t[k], pseudo[k]) {
        assert t[k] == op[k];
      }
    }
    assert t[|pseudo|..] == r;
    AfterPseudo(t, r, pseudo);
  }

  /** After `pseudo` itself, `\s*(.+)` captures the rest past its whitespace, or its last whitespace character. */
  lemma AfterPseudo(v: string, r: string, pseudo: string)
    requires StartsCaseless(v, pseudo) && v[|pseudo|..] == r
    ensures AfterSpace(v, pseudo)
      == if SkipSpace(r) != [] then Some(SkipSpace(r)) else if r != [] then Some(r[|r| - 1..]) else None
  {
  }

  /** Where the opcode `pseudo` starts and text follows it, the bare pattern captures that text. */
  lemma OpcodeTail(t: string, op: string, pseudo: string)
    requires t == [] || !IsSpace(t[0])
    requires ScanOpcode(t).0 == Some(op) && Spells(op, pseudo) && ScanOpcode(t).1 != []
    ensures PseudoTail(t, pseudo) == Some(ScanOpcode(t).1)
  {
    var e := WordEnd(t, 0);
    assert op == t[..e];
    assert t == op + t[e..];
    TailOfWord(op, t[e..], pseudo);
  }

  /**
   * A trimmed line with an opcode and nothing after it is the opcode,
   * preceded by its label, `:` and the whitespace `w` when it has a label.
   */
  lemma EmptyDataShape(s: string) returns (w: string)
    requires s != [] ==> !IsSpace(s[0]) && !IsSpace(s[|s| - 1])
    requires Match(s).opcode.Some? && Match(s).data == []
    ensures AllSpace(w)
    ensures Match(s).symbol.Some? ==> s == Match(s).symbol.value + (":" + (w + Match(s).opcode.value))
    ensures Match(s).symbol.None? ==> s == Match(s).opcode.value
  {
    var t := ScanLabel(s).1;
    MatchParts(s);
    OpcodeWhole(s, t);
    w := LabelOrBare(s);
  }

  /** `Match` is the label scan followed by the opcode scan. */
  lemma MatchParts(s: string)
    ensures Match(s).symbol == ScanLabel(s).0
    ensures Match(s).opcode == ScanOpcode(ScanLabel(s).1).0 && Match(s).data == ScanOpcode(ScanLabel(s).1).1
  {
  }

  /** A line that starts with a non-space character is its label, `:` and whitespace `w` before the text the label scan leaves, or that text alone. */
  lemma LabelOrBare(s: string) returns (w: string)
    requires s != [] ==> !IsSpace(s[0])
    ensures AllSpace(w)
    ensures ScanLabel(s).0.Some? ==> s == ScanLabel(s).0.value + (":" + (w + ScanLabel(s).1))
    ensures ScanLabel(s).0.None? ==> s == ScanLabel(s).1
  {
    var l := WordEnd(s, 0);
    if 0 < l < |s| && s[l] == ':' {
      w := LabelShape(s, l);
    } else {
      w := [];
      SkipNothing(s);
    }
  }

  /** A line with `:` at `l` is its first `l` characters, `:`, whitespace `w`, and the text after that whitespace. */
  lemma LabelShape(s: string, l: nat) returns (w: string)
    requires l < |s| && s[l] == ':'
    ensures AllSpace(w) && s == s[..l] + (":" + (w + SkipSpace(s[l + 1..])))
  {
    var after := s[l + 1..];
    var t := SkipSpace(after);
    w := after[..|after| - |t|];
    assert after == w + t;
    assert s == s[..l] + (":" + after);
  }

  /** When nothing follows the opcode of a trimmed line, the text from the opcode on is the opcode. */
  lemma OpcodeWhole(s: string, t: string)
    requires s != [] ==> !IsSpace(s[|s| - 1])
    requires IsSuffix(t, s)
    requires ScanOpcode(t).0.Some? && ScanOpcode(t).1 == []
    ensures t == ScanOpcode(t).0.value
  {
    var e := WordEnd(t, 0);
    var rest := t[e..];
    assert SkipSpace(rest) == [];
    assert rest[..|rest|] == rest;
    SuffixTrans(rest, t, s);
    if rest != [] {
      assert false;
    }
    assert t == t[..e];
  }

  /** A pattern longer than the text cannot match anywhere in it. */
  lemma {:induction false} SearchShort(t: string, pseudo: string)
    requires |t| < |pseudo|
    ensures PseudoDataAsWritten(t, pseudo) == None
    decreases |t|
  {
    assert PseudoTail(t, pseudo) == None;
    var e := WordEnd(t, 0);
    if 0 < e < |t| && t[e] == ':' {
      assert PseudoTail(t[e + 1..], pseudo) == None;
    }
    if t != [] {
      SearchShort(t[1..], pseudo);
    }
  }

  /** After whitespace, the opcode `pseudo` with nothing behind it leaves `(.+)` nothing to capture. */
  lemma TailAfterOpcode(w: string, op: string, pseudo: string)
    requires AllSpace(w) && IsWord(op) && Spells(op, pseudo)
    ensures PseudoTail(w + op, pseudo) == None
  {
    SpacePrefix(w, op);
    assert op[|pseudo|..] == [];
    assert AfterSpace(op, pseudo) == None;
  }

  /** A line that is just the opcode `pseudo` has no match. */
  lemma OpcodeOnly(op: string, pseudo: string)
    requires IsWord(op) && Spells(op, pseudo) && |pseudo| == 2
    ensures PseudoDataAsWritten(op, pseudo) == None
  {
    TailAfterOpcode([], op, pseudo);
    assert [] + op == op;
    assert op[0..|op|] == op;
    WordEndAt(op, 0, op);
    assert LabelRoute(op, pseudo) == None;
    SearchShort(op[1..], pseudo);
  }

  /** Whitespace then the opcode `pseudo` has no match. */
  lemma {:induction false} SpacesThenOp(w: string, op: string, pseudo: string)
    requires AllSpace(w) && IsWord(op) && Spells(op, pseudo) && |pseudo| == 2
    ensures PseudoDataAsWritten(w + op, pseudo) == None
    decreases |w|
  {
    if w == [] {
      assert w + op == op;
      OpcodeOnly(op, pseudo);
    } else {
      TailAfterOpcode(w, op, pseudo);
      assert (w + op)[0] == w[0];
      assert LabelRoute(w + op, pseudo) == None;
      assert (w + op)[1..] == w[1..] + op;
      SpacesThenOp(w[1..], op, pseudo);
    }
  }

  /** `:`, whitespace, then the opcode `pseudo` has no match. */
  lemma ColonThen(w: string, op: string, pseudo: string)
    requires AllSpace(w) && IsWord(op) && Spells(op, pseudo)
    requires Letters(pseudo) && |pseudo| == 2
    ensures PseudoDataAsWritten(":" + (w + op), pseudo) == None
  {
    var t := ":" + (w + op);
    assert t[0] == ':';
    assert WordEnd(t, 0) == 0;
    assert LabelRoute(t, pseudo) == None;
    SkipNothing(t);
    assert 'A' <= pseudo[0] <= 'Z';
    assert !SameLetter(t[0], pseudo[0]);
    assert !StartsCaseless(t, pseudo);
    assert PseudoTail(t, pseudo) == None;
    assert t[1..] == w + op;
    SpacesThenOp(w, op, pseudo);
  }

  /**
   * Inside `LABEL: w OP` with nothing after the opcode `OP`, the search from
   * position `i` of the label finds the first `DS` (or `DB`) in the label at
   * or after `i`, and captures the rest of the line after it.
   */
  lemma {:induction false} LabelSearchFrom(s: string, name: string, w: string, op: string, pseudo: string, i: nat)
    requires s == name + (":" + (w + op))
    requires IsWord(name) && AllSpace(w) && IsWord(op) && Spells(op, pseudo)
    requires Letters(pseudo) && |pseudo| == 2
    requires i <= |name|
    ensures PseudoDataAsWritten(s[i..], pseudo)
      == AfterFound(s, FindCaseless(name, pseudo, i))
    decreases |name| - i
  {
    if i == |name| {
      LabelSearchEnd(s, name, w, op, pseudo);
    } else if FoundAt(name, pseudo, i) {
      LabelSearchHit(s, name, w, op, pseudo, i);
    } else {
      LabelSearchMiss(s, name, w, op, pseudo, i);
      LabelSearchFrom(s, name, w, op, pseudo, i + 1);
    }
  }

  /** Past the label, the search finds nothing, and neither does the search for `pseudo` in the label. */
  lemma LabelSearchEnd(s: string, name: string, w: string, op: string, pseudo: string)
    requires s == name + (":" + (w + op))
    requires IsWord(name) && AllSpace(w) && IsWord(op) && Spells(op, pseudo)
    requires Letters(pseudo) && |pseudo| == 2
    ensures PseudoDataAsWritten(s[|name|..], pseudo) == None
    ensures FindCaseless(name, pseudo, |name|) == None
  {
    assert s[|name|..] == ":" + (w + op);
    ColonThen(w, op, pseudo);
  }

  /** Where `pseudo` starts at `i` inside the label, the search stops there. */
  lemma LabelSearchHit(s: string, name: string, w: string, op: string, pseudo: string, i: nat)
    requires s == name + (":" + (w + op))
    requires IsWord(name) && AllSpace(w) && IsWord(op) && Spells(op, pseudo)
    requires Letters(pseudo) && |pseudo| == 2
    requires FoundAt(name, pseudo, i)
    ensures PseudoDataAsWritten(s[i..], pseudo) == Some(s[i + 2..])
    ensures FindCaseless(name, pseudo, i) == Some(i)
  {
    LabelPosition(name, w, op, pseudo, i);
  }

  /** Where `pseudo` does not start at `i` inside the label, both searches move on to `i + 1`. */
  lemma LabelSearchMiss(s: string, name: string, w: string, op: string, pseudo: string, i: nat)
    requires s == name + (":" + (w + op))
    requires IsWord(name) && AllSpace(w) && IsWord(op) && Spells(op, pseudo)
    requires Letters(pseudo) && |pseudo| == 2
    requires i < |name| && !FoundAt(name, pseudo, i)
    ensures PseudoDataAsWritten(s[i..], pseudo) == PseudoDataAsWritten(s[i + 1..], pseudo)
    ensures FindCaseless(name, pseudo, i) == FindCaseless(name, pseudo, i + 1)
  {
    LabelPosition(name, w, op, pseudo, i);
    assert s[i..] != [];
    assert s[i..][1..] == s[i + 1..];
  }

  /**
   * At position `i` inside the label of `LABEL: w OP`, the pattern matches
   * exactly when `DS` (or `DB`) starts there within the label, and then
   * captures the rest of the line after it.
   */
  lemma LabelPosition(name: string, w: string, op: string, pseudo: string, i: nat)
    requires IsWord(name) && AllSpace(w) && IsWord(op) && Spells(op, pseudo)
    requires Letters(pseudo) && |pseudo| == 2
    requires i < |name|
    ensures var s := name + (":" + (w + op));
      PseudoAt(s[i..], pseudo) == if FoundAt(name, pseudo, i) then Some(s[i + 2..]) else None
  {
    var r := ":" + (w + op);
    var s := name + r;
    var t := s[i..];
    assert t == name[i..] + r;
    LabelThenTail(name[i..], w, op, pseudo);
    assert t[0] == name[i];
    SkipNothing(t);
    StartsInLabel(name, r, pseudo, i);
    if FoundAt(name, pseudo, i) {
      var x := t[2..];
      assert x == s[i + 2..];
      assert x[0] == s[i + 2];
      SkipNothing(x);
    }
  }

  /** Inside the label of `LABEL:…`, the pattern starts at `i` exactly when it occurs in the label there. */
  lemma StartsInLabel(name: string, r: string, pseudo: string, i: nat)
    requires Letters(pseudo) && |pseudo| == 2
    requires i < |name| && r != [] && r[0] == ':'
    ensures StartsCaseless((name + r)[i..], pseudo) <==> FoundAt(name, pseudo, i)
  {
    var t := (name + r)[i..];
    if FoundAt(name, pseudo, i) {
      forall k | 0 <= k < 2 ensures SameLetter(t[k], pseudo[k]) {
        assert t[k] == name[i + k];
      }
    } else if i + 2 > |name| {
      assert t[1] == ':';
      assert !SameLetter(t[1], pseudo[1]);
    } else {
      var k :| 0 <= k < 2 && !SameLetter(name[i + k], pseudo[k]);
      assert t[k] == name[i + k];
    }
  }

  /** Taken at a word directly before `:`, the label route leaves only whitespace and the opcode, which cannot match. */
  lemma LabelThenTail(word: string, w: string, op: string, pseudo: string)
    requires IsWord(word) && AllSpace(w) && IsWord(op) && Spells(op, pseudo)
    ensures LabelRoute(word + (":" + (w + op)), pseudo) == None
  {
    var r := ":" + (w + op);
    WordPrefix(word, r);
    assert r[1..] == w + op;
    assert (word + r)[|word| + 1..] == w + op;
    TailAfterOpcode(w, op, pseudo);
  }
}
