/**
 * The assembler as the source runs it: the line handler of Pass 1 updating
 * the globals `sym`, `code`, `addr` and `line` one source line at a time,
 * then Pass 2 writing the code list. Each method is proved to do what the
 * Pass 1 functions of module Encoder and the Pass 2 function of module
 * Resolver say.
 */
module Assembler {
  import opened Wrappers
  import opened Text
  import opened Numbers
  import opened Binary
  import opened Records
  import opened Opcodes
  import opened Classifier
  import opened Encoder
  import opened Resolver

  /** The state of a run: symbol table, code list, address counter and source line counter. */
  class Assembly {
    var sym: map<string, nat>
    var code: seq<Record>
    var addr: nat
    var line: nat

    /** The Pass 1 state these fields hold. */
    function Snapshot(): State
      reads this
    {
      State(sym, code, addr)
    }

    constructor ()
      ensures Snapshot() == State(map[], [], 0) && line == 0
    {
      sym := map[];
      code := [];
      addr := 0;
      line := 0;
    }

    /** `out0`: one entry, the opcode byte annotated with the mnemonic. */
    method Out0(opcode: string, machineCode: string)
      modifies this`code, this`addr
      ensures code == old(code) + [Byte(machineCode, opcode)] && addr == old(addr) + 1
    {
      code := code + [Byte(machineCode, opcode)];
      addr := addr + 1;
    }

    /** `out1`: the opcode byte and register A's byte, or "unknown register" before anything is emitted. */
    method Out1(opcode: string, opA: string, machineCode: string) returns (st: Outcome<Failure>)
      modifies this`code, this`addr
      ensures var r := Out1Records(opcode, opA, machineCode);
        (r.Ok? ==> st == Pass && code == old(code) + r.value && addr == old(addr) + 2)
        && (r.Err? ==> st == Fail(r.error) && code == old(code) && addr == old(addr))
    {
      var regA := GetReg(opA);
      if regA.Err? {
        return Fail(regA.error);
      }
      code := code + [Byte(machineCode, opcode + " " + opA)];
      var bin := P8(regA.value);
      code := code + [Byte(bin, "")];
      addr := addr + 2;
      return Pass;
    }

    /** `out2`: the opcode byte and the bytes of registers A and B; either register can be unknown, A is checked first. */
    method Out2(opcode: string, opA: string, opB: string, machineCode: string) returns (st: Outcome<Failure>)
      modifies this`code, this`addr
      ensures var r := Out2Records(opcode, opA, opB, machineCode);
        (r.Ok? ==> st == Pass && code == old(code) + r.value && addr == old(addr) + 3)
        && (r.Err? ==> st == Fail(r.error) && code == old(code) && addr == old(addr))
    {
      var regA := GetReg(opA);
      if regA.Err? {
        return Fail(regA.error);
      }
      var regB := GetReg(opB);
      if regB.Err? {
        return Fail(regB.error);
      }
      var head := Byte(machineCode, opcode + " " + opA + "," + opB);
      code := code + [head];
      var binA := P8(regA.value);
      code := code + [Byte(binA, "")];
      var binB := P8(regB.value);
      code := code + [Byte(binB, "")];
      PushThree(old(code), head, Byte(binA, ""), Byte(binB, ""));
      addr := addr + 3;
      return Pass;
    }

    /** `out8` (LDI): the opcode byte, register A's byte, then the immediate's byte or a `sym:` placeholder. */
    method Out8(opcode: string, opA: string, opB: string, machineCode: string) returns (st: Outcome<Failure>)
      requires IsWord(opB)
      modifies this`code, this`addr
      ensures var r := Out8Records(opcode, opA, opB, machineCode);
        (r.Ok? ==> st == Pass && code == old(code) + r.value && addr == old(addr) + 3)
        && (r.Err? ==> st == Fail(r.error) && code == old(code) && addr == old(addr))
    {
      var regA := GetReg(opA);
      if regA.Err? {
        return Fail(regA.error);
      }
      var outB := ImmediateOperand(opB);
      var head := Byte(machineCode, opcode + " " + opA + "," + opB);
      code := code + [head];
      var binA := P8(regA.value);
      code := code + [Byte(binA, "")];
      code := code + [outB];
      PushThree(old(code), head, Byte(binA, ""), outB);
      addr := addr + 3;
      return Pass;
    }

    /** `handleDS`: one byte per character of the argument, in order; "missing argument" when there is none. */
    method HandleDS(data: string) returns (st: Outcome<Failure>)
      modifies this`code, this`addr
      ensures data == [] ==> st == Fail(MissingArgument("DS")) && code == old(code) && addr == old(addr)
      ensures data != [] ==> st == Pass && code == old(code) + StringBytes(data) && addr == old(addr) + |data|
    {
      if data == [] {
        return Fail(MissingArgument("DS"));
      }
      var i := 0;
      while i < |data|
        invariant 0 <= i <= |data|
        invariant code == old(code) + StringBytes(data)[..i]
        invariant addr == old(addr)
      {
        var printChar := if data[i] == ' ' then "[space]" else [data[i]];
        var bin := P8(data[i] as nat);
        StringBytesStep(old(code), data, i, Byte(bin, printChar));
        code := code + [Byte(bin, printChar)];
        i := i + 1;
      }
      StringBytesAll(old(code), data);
      addr := addr + |data|;
      return Pass;
    }

    /** `handleDB`: one byte, the argument's value masked to eight bits; "missing argument" or "invalid integer" otherwise. */
    method HandleDB(data: string) returns (st: Outcome<Failure>)
      modifies this`code, this`addr
      ensures var r := DataByte(data);
        (r.Ok? ==> st == Pass && code == old(code) + r.value && addr == old(addr) + 1)
        && (r.Err? ==> st == Fail(r.error) && code == old(code) && addr == old(addr))
    {
      if data == [] {
        return Fail(MissingArgument("DB"));
      }
      var val := ParseInt(data);
      if val.None? {
        return Fail(InvalidInteger(data));
      }
      var bin := P8(LowByte(val.value));
      code := code + [Byte(bin, data)];
      addr := addr + 1;
      return Pass;
    }

    /**
     * The `switch` on the opcode in the line handler: DS, DB, or an
     * instruction checked by `checkOps` and handed to the emitter its type
     * selects. It appends what `Body` says, or fails without appending.
     */
    method Dispatch(f: Fields) returns (st: Outcome<Failure>)
      requires f.opB.Some? ==> f.opA.Some?
      requires f.opA.Some? ==> IsWord(f.opA.value)
      requires f.opB.Some? ==> IsWord(f.opB.value)
      modifies this`code, this`addr
      ensures var r := Body(f);
        (r.Ok? ==> st == Pass && code == old(code) + r.value && addr == old(addr) + |r.value|)
        && (r.Err? ==> st == Fail(r.error) && code == old(code) && addr == old(addr))
    {
      if f.opcode.None? {
        assert code == old(code) + [];
        return Pass;
      }
      var opcode := f.opcode.value;
      if opcode == "DS" {
        st := HandleDS(f.data);
      } else if opcode == "DB" {
        st := HandleDB(f.data);
      } else {
        var checked := CheckOps(opcode, f.opA, f.opB);
        if checked.Err? {
          return Fail(checked.error);
        }
        var info := checked.value;
        match info.arity
        case NoOperand =>
          Out0(opcode, info.code);
          st := Pass;
        case OneRegister =>
          st := Out1(opcode, f.opA.value, info.code);
        case TwoRegisters =>
          st := Out2(opcode, f.opA.value, f.opB.value, info.code);
        case RegisterImmediate =>
          st := Out8(opcode, f.opA.value, f.opB.value, info.code);
      }
    }

    /**
     * The label and `switch` part of the line handler, for a line with
     * something on it: the label (if any) is recorded, then the body emitted.
     */
    method Handle(f: Fields) returns (st: Outcome<Failure>)
      requires f.opB.Some? ==> f.opA.Some?
      requires f.opA.Some? ==> IsWord(f.opA.value)
      requires f.opB.Some? ==> IsWord(f.opB.value)
      modifies this`sym, this`code, this`addr
      ensures var r := Body(f);
        (r.Ok? ==> st == Pass && Snapshot() == Apply(old(Snapshot()), LabelRecords(f, old(addr)) + r.value))
        && (r.Err? ==> st == Fail(r.error) && Snapshot() == Apply(old(Snapshot()), LabelRecords(f, old(addr))))
    {
      if f.symbol.Some? {
        sym := sym[f.symbol.value := addr];
        code := code + [Marker(f.symbol.value, addr)];
      }
      LabelApplied(old(Snapshot()), f, Snapshot());
      var before := Snapshot();
      st := Dispatch(f);
      if st.Pass? {
        BodyApplied(old(Snapshot()), f, before, Snapshot(), Body(f).value);
      }
    }

    /**
     * The line handler of Pass 1. The line counter always advances. On
     * success the state is the one `LineRecords` describes; on failure the
     * run stops, with the label (if any) already recorded.
     */
    method ProcessLine(input: string) returns (st: Outcome<Failure>)
      modifies this
      ensures line == old(line) + 1
      ensures var r := LineRecords(input, old(addr));
        (r.Ok? ==> st == Pass && Snapshot() == Apply(old(Snapshot()), r.value))
        && (r.Err? ==> st == Fail(r.error) && Snapshot() == Apply(old(Snapshot()), LabelRecords(Parse(input), old(addr))))
    {
      ghost var start := Snapshot();
      line := line + 1;
      assert Snapshot() == start;
      var s := Clean(input);
      if s == [] {
        BlankLine(input, start.addr);
        ApplyNothing(start);
        return Pass;
      }
      var f := Parse(input);
      st := Handle(f);
      LineOutcome(input, start, Snapshot(), st);
    }

    /** The line handler on line `i + 1` of a run, in terms of Pass 1 over the lines so far. */
    method ReadLine(lines: seq<string>, i: nat) returns (st: Outcome<Failure>)
      requires i < |lines| && line == i && Pass1(lines[..i]) == Ok(Snapshot())
      modifies this
      ensures line == i + 1
      ensures st.Pass? ==> Pass1(lines[..i + 1]) == Ok(Snapshot())
      ensures st.Fail? ==> Pass1(lines) == Err(AtLine(line, st.error))
    {
      ghost var before := Snapshot();
      st := ProcessLine(lines[i]);
      Pass1Advance(lines, i, before, Snapshot(), st);
    }
  }

  /** The `parseInt`/`isNaN` step of `out8`: the operand's byte through `p8`, or a `sym:` placeholder. */
  method ImmediateOperand(opB: string) returns (outB: Record)
    requires IsWord(opB)
    ensures outB == Immediate(opB)
  {
    var valB := ParseInt(opB);
    if valB.None? {
      outB := Pending(opB);
    } else {
      WordNotNegative(opB);
      var bin := P8(valB.value as nat);
      outB := Byte(bin, "");
    }
  }

  /** A line's entries are its label's marker followed by what its body emits. */
  lemma LineRecordsBody(input: string, addr: nat)
    ensures var f := Parse(input);
      (Body(f).Ok? ==> LineRecords(input, addr) == Ok(LabelRecords(f, addr) + Body(f).value))
      && (Body(f).Err? ==> LineRecords(input, addr) == Err(Body(f).error))
  {
  }

  /** The outcome of handling a line's fields, in terms of the line's entries. */
  lemma LineOutcome(input: string, start: State, after: State, st: Outcome<Failure>)
    requires var f := Parse(input); var r := Body(f);
      (r.Ok? ==> st == Pass && after == Apply(start, LabelRecords(f, start.addr) + r.value))
      && (r.Err? ==> st == Fail(r.error) && after == Apply(start, LabelRecords(f, start.addr)))
    ensures var r := LineRecords(input, start.addr);
      (r.Ok? ==> st == Pass && after == Apply(start, r.value))
      && (r.Err? ==> st == Fail(r.error) && after == Apply(start, LabelRecords(Parse(input), start.addr)))
  {
    LineRecordsBody(input, start.addr);
  }

  /** Three pushes append the three entries in order. */
  lemma PushThree(c: seq<Record>, x: Record, y: Record, z: Record)
    ensures c + [x] + [y] + [z] == c + [x, y, z]
  {
  }

  /** The DS bytes of the first `i + 1` characters extend those of the first `i` by the byte of character `i`. */
  lemma StringBytesStep(prefix: seq<Record>, data: string, i: nat, b: Record)
    requires i < |data| && b == CharByte(data[i])
    ensures prefix + StringBytes(data)[..i] + [b] == prefix + StringBytes(data)[..i + 1]
  {
    assert StringBytes(data)[..i + 1] == StringBytes(data)[..i] + [b];
  }

  /** The DS bytes of all the characters are the DS bytes of the argument. */
  lemma StringBytesAll(prefix: seq<Record>, data: string)
    ensures prefix + StringBytes(data)[..|data|] == prefix + StringBytes(data)
  {
    assert StringBytes(data)[..|data|] == StringBytes(data);
  }

  /** Appending a line's marker-free entries after its label is appending the whole line. */
  lemma BodyApplied(st: State, f: Fields, before: State, now: State, rs: seq<Record>)
    requires before == Apply(st, LabelRecords(f, st.addr))
    requires forall i :: 0 <= i < |rs| ==> !rs[i].Marker?
    requires now == State(before.sym, before.code + rs, before.addr + |rs|)
    ensures now == Apply(st, LabelRecords(f, st.addr) + rs)
  {
    NoMarkers(rs);
    ApplyTwice(st, LabelRecords(f, st.addr), rs);
    assert before.sym + map[] == before.sym;
  }

  /** Recording a label is appending its marker. */
  lemma LabelApplied(st: State, f: Fields, now: State)
    requires f.symbol.Some? ==> now == State(st.sym[f.symbol.value := st.addr], st.code + [Marker(f.symbol.value, st.addr)], st.addr)
    requires f.symbol.None? ==> now == st
    ensures now == Apply(st, LabelRecords(f, st.addr))
  {
    var rs := LabelRecords(f, st.addr);
    if f.symbol.Some? {
      assert rs[..0] == [];
      assert ByteCount(rs) == 0;
      assert Bindings(rs) == map[f.symbol.value := st.addr];
      assert st.sym + Bindings(rs) == st.sym[f.symbol.value := st.addr];
    } else {
      assert st.sym + map[] == st.sym;
      assert st.code + [] == st.code;
    }
  }
  /**
   * What Pass 2 does with the code list `code` and the symbol table `sym`,
   * as a relation on its result `r`: the lines written are the entries'
   * output lines, in order, up to the first placeholder whose label is
   * undefined; the run ends normally exactly when there is no such
   * placeholder, and otherwise aborts with that placeholder's label.
   */
  ghost predicate Written(code: seq<Record>, sym: map<string, nat>, r: (seq<string>, Option<Abort>)) {
    |r.0| <= |code|
    && (forall i :: 0 <= i < |r.0| ==> Resolvable(code[i], sym) && r.0[i] == Output(code[i], sym))
    && (r.1.None? <==> forall i :: 0 <= i < |code| ==> Resolvable(code[i], sym))
    && (r.1.None? ==> |r.0| == |code|)
    && (r.1.Some? ==> |r.0| < |code| && code[|r.0|].Pending? && code[|r.0|].name !in sym
                      && r.1.value == UnknownSymbol(code[|r.0|].name))
  }

  /** Pass 2's result, with an undefined label turned into the abort it causes. */
  function Pass2(code: seq<Record>, sym: map<string, nat>): (r: (seq<string>, Option<Abort>))
    ensures Written(code, sym, r)
  {
    ResolvedMeaning(code, sym);
    ResolvedComplete(code, sym);
    var res := Resolved(code, sym);
    (res.0, if res.1.Some? then Some(UnknownSymbol(res.1.value)) else None)
  }

  /**
   * A whole run on the source lines: the lines written to the output and
   * the error that ended the run, if any. A Pass 1 error exits before
   * anything is written; otherwise Pass 2 writes the code list up to the
   * first undefined label, as `Written` describes.
   */
  function Run(lines: seq<string>): (r: (seq<string>, Option<Abort>))
    ensures Pass1(lines).Err? ==> r == ([], Some(Pass1(lines).error))
    ensures Pass1(lines).Ok? ==> Written(Pass1(lines).value.code, Pass1(lines).value.sym, r)
  {
    match Pass1(lines)
    case Err(e) => ([], Some(e))
    case Ok(st) => Pass2(st.code, st.sym)
  }

  /** The exit status of a run: 0 when it ends normally, otherwise the status of the error that stopped it. */
  function ExitStatus(r: (seq<string>, Option<Abort>)): (status: nat)
    ensures status == 0 <==> r.1.None?
    ensures r.1.Some? ==> status == r.1.value.ExitCode()
    ensures status <= 2
  {
    if r.1.Some? then r.1.value.ExitCode() else 0
  }

  /**
   * The exit status of a whole run: a Pass 1 failure exits with that
   * failure's own status (1 for operand and register errors, 2 for the
   * rest); after Pass 1 the run exits with 0 exactly when every placeholder
   * names a defined label, and with 2 otherwise.
   */
  lemma RunStatus(lines: seq<string>)
    ensures Pass1(lines).Err? ==> ExitStatus(Run(lines)) == Pass1(lines).error.failure.ExitCode()
    ensures Pass1(lines).Ok? ==> var st := Pass1(lines).value;
      (ExitStatus(Run(lines)) == 0 <==> forall i :: 0 <= i < |st.code| ==> Resolvable(st.code[i], st.sym))
      && (ExitStatus(Run(lines)) != 0 ==> ExitStatus(Run(lines)) == 2)
  {
    if Pass1(lines).Ok? {
      var st := Pass1(lines).value;
      WrittenStatus(st.code, st.sym, Run(lines));
    }
  }

  /** Pass 2 ends with status 0 exactly when every placeholder resolves, and with 2 otherwise. */
  lemma WrittenStatus(code: seq<Record>, sym: map<string, nat>, r: (seq<string>, Option<Abort>))
    requires Written(code, sym, r)
    ensures ExitStatus(r) == 0 <==> forall i :: 0 <= i < |code| ==> Resolvable(code[i], sym)
    ensures ExitStatus(r) != 0 ==> ExitStatus(r) == 2
  {
  }

  /**
   * Pass 1 as the source runs it: the line handler on each line in turn,
   * from an empty state, stopping at the first failure.
   */
  method ReadLines(lines: seq<string>) returns (asm: Assembly, failure: Option<Abort>)
    ensures failure.None? <==> Pass1(lines).Ok?
    ensures failure.None? ==> Pass1(lines).value == asm.Snapshot()
    ensures failure.Some? ==> Pass1(lines).error == failure.value
  {
    asm := new Assembly();
    var i := 0;
    while i < |lines|
      invariant 0 <= i <= |lines|
      invariant asm.line == i
      invariant Pass1(lines[..i]) == Ok(asm.Snapshot())
    {
      var st := asm.ReadLine(lines, i);
      if st.Fail? {
        return asm, Some(AtLine(asm.line, st.error));
      }
      i := i + 1;
    }
    PrefixAll(lines);
    failure := None;
  }

  /** The assembler as the source runs it: Pass 1 over the lines, then Pass 2 over the code list when the input ends. */
  method Assemble(lines: seq<string>) returns (out: seq<string>, abort: Option<Abort>)
    ensures (out, abort) == Run(lines)
  {
    var asm, failure := ReadLines(lines);
    if failure.Some? {
      return [], failure;
    }
    var missing;
    out, missing := Resolve(asm.code, asm.sym);
    abort := if missing.Some? then Some(UnknownSymbol(missing.value)) else None;
  }

  /** One line of the driver loop, in terms of Pass 1: a processed line extends it, a failing line ends it. */
  lemma Pass1Advance(lines: seq<string>, i: nat, before: State, after: State, st: Outcome<Failure>)
    requires i < |lines| && Pass1(lines[..i]) == Ok(before)
    requires var r := LineRecords(lines[i], before.addr);
      (r.Ok? ==> st == Pass && after == Apply(before, r.value)) && (r.Err? ==> st == Fail(r.error))
    ensures st.Pass? ==> Pass1(lines[..i + 1]) == Ok(after)
    ensures st.Fail? ==> Pass1(lines) == Err(AtLine(i + 1, st.error))
  {
    Pass1Step(lines, i);
    var r := LineRecords(lines[i], before.addr);
    if r.Ok? {
      assert Pass1(lines[..i + 1]) == Ok(Apply(before, r.value));
    } else {
      assert Pass1(lines[..i + 1]) == Err(AtLine(i + 1, r.error));
      FailureStops(lines, i + 1);
    }
  }

  /**
   * Every placeholder Pass 2 writes is recognised by its `sym:` prefix, its
   * trimmed rest is its label, and it becomes `p8` of that label's address:
   * the number of bytes emitted before the label's last definition.
   */
  lemma PlaceholderResolution(lines: seq<string>, i: nat)
    requires Pass1(lines).Ok? && i < |Run(lines).0|
    requires Pass1(lines).value.code[i].Pending?
    ensures var code := Pass1(lines).value.code;
      var name := code[i].name;
      Entry(code[i])[..4] == "sym:" && Trim(Entry(code[i])[4..]) == name
      && name in Pass1(lines).value.sym
      && (exists k :: LastMarkerAt(code, name, Pass1(lines).value.sym[name], k))
      && Run(lines).0[i] == Padded(Pass1(lines).value.sym[name])
  {
    PlaceholderWritten(Pass1(lines).value, Run(lines), i);
  }

  /** The same for any well-formed Pass 1 state and any output Pass 2 writes for it. */
  lemma PlaceholderWritten(st: State, r: (seq<string>, Option<Abort>), i: nat)
    requires WellFormed(st) && Written(st.code, st.sym, r)
    requires i < |r.0| && st.code[i].Pending?
    ensures var name := st.code[i].name;
      Entry(st.code[i])[..4] == "sym:" && Trim(Entry(st.code[i])[4..]) == name
      && name in st.sym
      && (exists k :: LastMarkerAt(st.code, name, st.sym[name], k))
      && r.0[i] == Padded(st.sym[name])
  {
    var name := st.code[i].name;
    EntryPlaceholder(st.code[i]);
    assert Resolvable(st.code[i], st.sym);
    LabelAddress(st.code, name);
  }
}
