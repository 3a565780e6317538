/**
 * Pass 2: the code list is written out line by line, each label
 * placeholder replaced by the label's address in binary. The first
 * placeholder whose label was never defined stops the run with exit
 * status 2; the lines before it have already been written.
 */
module Resolver {
  import opened Wrappers
  import opened Text
  import opened Numbers
  import opened Binary
  import opened Records

  /**
   * The text the source keeps in `code` for an entry: `BITS # NOTE`,
   * `sym:LABEL` or `# LABEL (ADDR):`. A byte's line starts with its digits
   * and is nothing more exactly when it has no note; a marker's line holds
   * its label, and the address in it reads back through `parseInt`.
   */
  function Entry(r: Record): (e: string)
    ensures r.Byte? ==> |r.bits| <= |e| && e[..|r.bits|] == r.bits && (e == r.bits <==> r.note == [])
    ensures r.Byte? && r.note != [] ==> e[|r.bits|..] == " # " + r.note
    ensures r.Pending? ==> e == "sym:" + r.name
    ensures r.Marker? ==> var n := |r.symbol| + 4;
      n + 2 < |e| && e[..n] == "# " + r.symbol + " (" && e[|e| - 2..] == "):" && DecimalText(e[n..|e| - 2], r.addr)
  {
    match r
    case Byte(bits, note) => ByteLine(bits, note)
    case Pending(name) => "sym:" + name
    case Marker(symbol, addr) => MarkerLine(symbol, addr)
  }

  /** A byte's line: the digits, then ` # ` and the note when there is one. */
  function ByteLine(bits: string, note: string): (e: string)
    ensures |bits| <= |e| && e[..|bits|] == bits && (e == bits <==> note == [])
    ensures note != [] ==> e[|bits|..] == " # " + note
  {
    if note == [] then bits
    else
      var e := bits + " # " + note;
      assert |e| > |bits| && e[..|bits|] == bits && e[|bits|..] == " # " + note;
      e
  }

  /** Text that is a run of decimal digits worth `n`. */
  ghost predicate DecimalText(d: string, n: nat) {
    d != [] && (forall i :: 0 <= i < |d| ==> '0' <= d[i] <= '9') && Value(d, 10) == n
  }

  /** A marker's line: `# LABEL (ADDR):`, the address in decimal. */
  function MarkerLine(symbol: string, addr: nat): (e: string)
    ensures var n := |symbol| + 4;
      n + 2 < |e| && e[..n] == "# " + symbol + " (" && e[|e| - 2..] == "):" && DecimalText(e[n..|e| - 2], addr)
  {
    var p := "# " + symbol + " (";
    var d := Decimal(addr);
    DecimalValue(addr);
    var e := p + d + "):";
    assert e[..|p|] == p && e[|e| - 2..] == "):" && e[|p|..|e| - 2] == d;
    e
  }

  /**
   * Pass 2 recognises placeholders by the prefix `sym:` and reads the label
   * as the trimmed rest. Only placeholders carry that prefix, and the rest
   * is the label itself, so resolving by record kind is the same test.
   */
  lemma EntryPlaceholder(r: Record)
    requires r.Byte? ==> IsBinary(r.bits) && |r.bits| >= 8
    requires r.Pending? ==> IsWord(r.name)
    ensures (|Entry(r)| >= 4 && Entry(r)[..4] == "sym:") <==> r.Pending?
    ensures r.Pending? ==> Trim(Entry(r)[4..]) == r.name
  {
    var e := Entry(r);
    match r
    case Byte(bits, note) =>
      assert e[..|bits|][0] == bits[0];
      assert e[0] != 's';
    case Marker(symbol, _) =>
      assert e[..|symbol| + 4][0] == '#';
      assert e[0] != 's';
    case Pending(name) =>
      assert e[..4] == "sym:" && e[4..] == name;
      TrimUnchanged(name);
  }

  /** An entry Pass 2 can write: anything but a placeholder for an undefined label. */
  predicate Resolvable(r: Record, sym: map<string, nat>) {
    r.Pending? ==> r.name in sym
  }

  /** The line Pass 2 writes for a resolvable entry: the label's address through `p8`, or the entry's text. */
  function Output(r: Record, sym: map<string, nat>): string
    requires Resolvable(r, sym)
  {
    if r.Pending? then Padded(sym[r.name]) else Entry(r)
  }

  /**
   * The lines Pass 2 writes for `code`, and the undefined label that stops
   * it, if any.
   */
  function Resolved(code: seq<Record>, sym: map<string, nat>): (r: (seq<string>, Option<string>))
    ensures r.1.None? ==> |r.0| == |code|
    ensures r.1.Some? ==> |r.0| < |code| && code[|r.0|] == Pending(r.1.value) && r.1.value !in sym
    decreases |code|
  {
    if code == [] then ([], None)
    else if !Resolvable(code[0], sym) then ([], Some(code[0].name))
    else
      var rest := Resolved(code[1..], sym);
      ([Output(code[0], sym)] + rest.0, rest.1)
  }

  /**
   * Every entry before the stopping placeholder is written, in order, each
   * as its own line; without an undefined label everything is written; the
   * run stops exactly at a placeholder whose label is undefined.
   */
  lemma {:induction false} ResolvedMeaning(code: seq<Record>, sym: map<string, nat>)
    ensures var r := Resolved(code, sym);
      (forall i :: 0 <= i < |r.0| ==> Resolvable(code[i], sym) && r.0[i] == Output(code[i], sym))
      && (r.1.None? ==> |r.0| == |code|)
      && (r.1.Some? ==> |r.0| < |code| && code[|r.0|] == Pending(r.1.value) && r.1.value !in sym)
    decreases |code|
  {
    if code != [] && Resolvable(code[0], sym) {
      var tail := code[1..];
      ResolvedMeaning(tail, sym);
      var rest := Resolved(tail, sym);
      var r := Resolved(code, sym);
      assert r.0 == [Output(code[0], sym)] + rest.0;
      forall i | 1 <= i < |r.0|
        ensures Resolvable(code[i], sym) && r.0[i] == Output(code[i], sym)
      {
        assert r.0[i] == rest.0[i - 1] && code[i] == tail[i - 1];
      }
      if rest.1.Some? {
        assert code[|r.0|] == tail[|rest.0|];
      }
    }
  }

  /** Pass 2 writes everything exactly when every placeholder names a defined label. */
  lemma ResolvedComplete(code: seq<Record>, sym: map<string, nat>)
    ensures Resolved(code, sym).1.None? <==> forall i :: 0 <= i < |code| ==> Resolvable(code[i], sym)
  {
    ResolvedMeaning(code, sym);
    var r := Resolved(code, sym);
    if r.1.Some? {
      assert !Resolvable(code[|r.0|], sym);
    }
  }

  /**
   * The loop of Pass 2: each entry is written in turn, a placeholder as
   * `p8` of its label's address; an undefined label stops the loop.
   */
  method Resolve(code: seq<Record>, sym: map<string, nat>) returns (out: seq<string>, missing: Option<string>)
    ensures (out, missing) == Resolved(code, sym)
  {
    out := [];
    var i := 0;
    ResolvedFrom(code, sym);
    while i < |code|
      invariant 0 <= i <= |code|
      invariant Resolved(code, sym) == (out + Resolved(code[i..], sym).0, Resolved(code[i..], sym).1)
    {
      var c := code[i];
      ResolvedStep(code, sym, i);
      var text: string;
      if c.Pending? {
        if c.name in sym {
          text := P8(sym[c.name]);
        } else {
          AppendNothing(out);
          return out, Some(c.name);
        }
      } else {
        text := Entry(c);
      }
      AppendOne(out, text, Resolved(code[i + 1..], sym).0);
      out := out + [text];
      i := i + 1;
    }
    ResolvedEnd(code, sym);
    AppendNothing(out);
    missing := None;
  }


  /** Pass 2 from the start is Pass 2 over the whole code list, with nothing written yet. */
  lemma ResolvedFrom(code: seq<Record>, sym: map<string, nat>)
    ensures Resolved(code, sym) == ([] + Resolved(code[0..], sym).0, Resolved(code[0..], sym).1)
  {
    assert code[0..] == code;
    assert [] + Resolved(code, sym).0 == Resolved(code, sym).0;
  }

  /** One step of Pass 2 from entry `i`: the entry's line, then the rest; or a stop at an undefined label. */
  lemma ResolvedStep(code: seq<Record>, sym: map<string, nat>, i: nat)
    requires i < |code|
    ensures !Resolvable(code[i], sym) ==> Resolved(code[i..], sym) == ([], Some(code[i].name))
    ensures Resolvable(code[i], sym) ==>
      Resolved(code[i..], sym) == ([Output(code[i], sym)] + Resolved(code[i + 1..], sym).0, Resolved(code[i + 1..], sym).1)
  {
    assert code[i..][0] == code[i];
    assert code[i..][1..] == code[i + 1..];
  }

  /** Pass 2 past the last entry writes nothing. */
  lemma ResolvedEnd(code: seq<Record>, sym: map<string, nat>)
    ensures Resolved(code[|code|..], sym) == ([], None)
  {
    assert code[|code|..] == [];
  }

  lemma AppendNothing(out: seq<string>)
    ensures out + [] == out
  {
  }

  lemma AppendOne(out: seq<string>, text: string, rest: seq<string>)
    ensures out + ([text] + rest) == (out + [text]) + rest
  {
  }
}
