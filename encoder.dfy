/**
 * Pass 1 as a function of the source lines: what each line adds to the
 * symbol table, the code list and the address counter, or the failure that
 * stops the run. The imperative line handler (module Assembler) is proved to
 * follow these functions step by step.
 */
module Encoder {
  import opened Wrappers
  import opened Text
  import opened Numbers
  import opened Binary
  import opened Records
  import opened Opcodes
  import opened Classifier

  function UpperOpt(o: Option<string>): (u: Option<string>)
    ensures UpperOf(u, o)
  {
    match o
    case None => None
    case Some(s) => UpperUnique(s, Upper(s)); Some(Upper(s))
  }

  /** A field after `uppercase`: present exactly when the capture is, equal to it ignoring case, with no lower-case letter. */
  predicate UpperOf(u: Option<string>, o: Option<string>) {
    (u.Some? <==> o.Some?) && (u.Some? ==> NoLower(u.value) && Caseless(u.value, o.value))
  }

  /**
   * `f` is `m` after `uppercase`: label, opcode and operands upper-cased,
   * still words with the same nesting, and the DS/DB argument as captured,
   * a text that starts with a non-space and is empty when there is no opcode.
   */
  predicate UpperFieldsOf(f: Fields, m: Fields) {
    UpperOf(f.symbol, m.symbol) && UpperOf(f.opcode, m.opcode) && UpperOf(f.opA, m.opA) && UpperOf(f.opB, m.opB)
    && f.data == m.data
    && (f.symbol.Some? ==> IsWord(f.symbol.value))
    && (f.opcode.Some? ==> IsWord(f.opcode.value))
    && (f.opA.Some? ==> f.opcode.Some? && IsWord(f.opA.value))
    && (f.opB.Some? ==> f.opA.Some? && IsWord(f.opB.value))
    && (f.opcode.None? ==> f.data == [])
    && (f.data != [] ==> !IsSpace(f.data[0]))
  }

  /**
   * The fields the line handler works with: the captures of the cleaned
   * line, label, opcode and operands upper-cased, the DS/DB argument as
   * written.
   */
  function Parse(input: string): (f: Fields)
    ensures UpperFieldsOf(f, Match(Clean(input)))
    ensures Clean(input) == [] ==> f.symbol.None? && f.opcode.None?
  {
    Classify(Clean(input))
  }

  /** The fields of a cleaned line: its captures, label, opcode and operands upper-cased. */
  function Classify(s: string): (f: Fields)
    ensures UpperFieldsOf(f, Match(s))
    ensures s == [] ==> f.symbol.None? && f.opcode.None?
  {
    UpperCaptures(Match(s))
  }

  /** The captures with label, opcode and operands upper-cased: still words, with the same nesting. */
  function UpperCaptures(m: Fields): (f: Fields)
    requires m.symbol.Some? ==> IsWord(m.symbol.value)
    requires m.opcode.Some? ==> IsWord(m.opcode.value)
    requires m.opA.Some? ==> m.opcode.Some? && IsWord(m.opA.value)
    requires m.opB.Some? ==> m.opA.Some? && IsWord(m.opB.value)
    ensures UpperOf(f.symbol, m.symbol) && UpperOf(f.opcode, m.opcode) && UpperOf(f.opA, m.opA) && UpperOf(f.opB, m.opB)
    ensures f.data == m.data
    ensures f.symbol.Some? ==> IsWord(f.symbol.value)
    ensures f.opcode.Some? ==> IsWord(f.opcode.value)
    ensures f.opA.Some? ==> f.opcode.Some? && IsWord(f.opA.value)
    ensures f.opB.Some? ==> f.opA.Some? && IsWord(f.opB.value)
  {
    Fields(UpperOpt(m.symbol), UpperOpt(m.opcode), UpperOpt(m.opA), UpperOpt(m.opB), m.data)
  }

  /** The byte `p8` writes for a register operand; "unknown register" when the operand names none. */
  function RegisterByte(op: string): (r: Result<Record, Failure>)
    ensures r.Ok? <==> GetReg(op).Ok?
    ensures r.Err? ==> r.error == UnknownRegister(op)
    ensures r.Ok? ==> r.value.Byte? && r.value.note == [] && IsBinary(r.value.bits) && |r.value.bits| == 8
    ensures r.Ok? ==> FromBinary(r.value.bits) == GetReg(op).value
  {
    match GetReg(op)
    case Ok(n) => Ok(Byte(Padded(n), ""))
    case Err(e) => Err(e)
  }

  /** The third entry of LDI: the operand's value when `parseInt` reads one, else a placeholder for the label. */
  function Immediate(op: string): Record
    requires IsWord(op)
  {
    WordNotNegative(op);
    match ParseInt(op)
    case Some(v) => Byte(Padded(v as nat), "")
    case None => Pending(op)
  }

  /**
   * LDI's operand is a placeholder exactly when `parseInt` gives `NaN`;
   * otherwise it is the byte of the value read, with no note.
   */
  lemma ImmediateMeaning(op: string)
    requires IsWord(op)
    ensures Immediate(op).Pending? <==> ParseInt(op).None?
    ensures Immediate(op).Pending? ==> Immediate(op).name == op
    ensures Immediate(op).Byte? ==> Immediate(op).note == [] && FromBinary(Immediate(op).bits) == ParseInt(op).value
    ensures Immediate(op).Byte? ==> IsBinary(Immediate(op).bits) && |Immediate(op).bits| >= 8
  {
  }

  /** `out1`: the opcode byte annotated `OP A`, then register A's byte. */
  function Out1Records(opcode: string, a: string, code: string): (r: Result<seq<Record>, Failure>)
    ensures r.Ok? <==> GetReg(a).Ok?
    ensures r.Err? ==> r.error == UnknownRegister(a)
    ensures r.Ok? ==> |r.value| == 2 && r.value[0] == Byte(code, opcode + " " + a)
    ensures r.Ok? ==> r.value[1].Byte? && FromBinary(r.value[1].bits) == GetReg(a).value
    ensures r.Ok? ==> r.value[1] == RegisterByte(a).value
  {
    match RegisterByte(a)
    case Err(e) => Err(e)
    case Ok(ra) => Ok([Byte(code, opcode + " " + a), ra])
  }

  /** `out2`: the opcode byte annotated `OP A,B`, then the bytes of registers A and B; A is read first. */
  function Out2Records(opcode: string, a: string, b: string, code: string): (r: Result<seq<Record>, Failure>)
    ensures r.Ok? <==> GetReg(a).Ok? && GetReg(b).Ok?
    ensures GetReg(a).Err? ==> r == Err(UnknownRegister(a))
    ensures GetReg(a).Ok? && GetReg(b).Err? ==> r == Err(UnknownRegister(b))
    ensures r.Ok? ==> |r.value| == 3 && r.value[0] == Byte(code, opcode + " " + a + "," + b)
    ensures r.Ok? ==> r.value[1].Byte? && FromBinary(r.value[1].bits) == GetReg(a).value
    ensures r.Ok? ==> r.value[2].Byte? && FromBinary(r.value[2].bits) == GetReg(b).value
    ensures r.Ok? ==> r.value[1] == RegisterByte(a).value && r.value[2] == RegisterByte(b).value
  {
    match RegisterByte(a)
    case Err(e) => Err(e)
    case Ok(ra) =>
      match RegisterByte(b)
      case Err(e) => Err(e)
      case Ok(rb) => Ok([Byte(code, opcode + " " + a + "," + b), ra, rb])
  }

  /** `out8` (LDI): the opcode byte annotated `OP A,B`, register A's byte, then the immediate or a label placeholder. */
  function Out8Records(opcode: string, a: string, b: string, code: string): (r: Result<seq<Record>, Failure>)
    requires IsWord(b)
    ensures r.Ok? <==> GetReg(a).Ok?
    ensures r.Err? ==> r.error == UnknownRegister(a)
    ensures r.Ok? ==> |r.value| == 3 && r.value[0] == Byte(code, opcode + " " + a + "," + b)
    ensures r.Ok? ==> r.value[1].Byte? && FromBinary(r.value[1].bits) == GetReg(a).value
    ensures r.Ok? ==> r.value[1] == RegisterByte(a).value
    ensures r.Ok? ==> r.value[2] == Immediate(b)
  {
    match RegisterByte(a)
    case Err(e) => Err(e)
    case Ok(ra) => Ok([Byte(code, opcode + " " + a + "," + b), ra, Immediate(b)])
  }

  /**
   * The `typeF` dispatch: what `out0`, `out1`, `out2` or `out8` emits for an
   * instruction whose operand count `checkOps` accepted. The first entry is
   * the opcode byte, which decodes back to the mnemonic; one entry follows
   * per operand; none of them is a label marker.
   */
  function Instruction(opcode: string, info: OpInfo, opA: Option<string>, opB: Option<string>): (r: Result<seq<Record>, Failure>)
    requires opcode in Ops && info == Ops[opcode]
    requires OperandCount(opA, opB) == info.arity.Operands() && (opB.Some? ==> opA.Some?)
    requires opB.Some? ==> IsWord(opB.value)
    ensures r.Err? ==> r.error.UnknownRegister?
    ensures r.Ok? ==> |r.value| == 1 + info.arity.Operands()
    ensures r.Ok? ==> r.value[0].Byte? && r.value[0].bits in Mnemonics && Mnemonics[r.value[0].bits] == opcode
    ensures r.Ok? ==> Emitted(r.value)
    ensures info.arity.NoOperand? ==> r == Ok([Byte(info.code, opcode)])
    ensures info.arity.OneRegister? ==> opA.Some? && r == Out1Records(opcode, opA.value, info.code)
    ensures info.arity.TwoRegisters? ==> opA.Some? && opB.Some? && r == Out2Records(opcode, opA.value, opB.value, info.code)
    ensures info.arity.RegisterImmediate? ==> opA.Some? && opB.Some? && r == Out8Records(opcode, opA.value, opB.value, info.code)
  {
    DecodeOpcode(opcode);
    OpcodeText(opcode);
    match info.arity
    case NoOperand => Ok([Byte(info.code, opcode)])
    case OneRegister =>
      Out1Valid(opcode, opA.value, info.code);
      Out1Records(opcode, opA.value, info.code)
    case TwoRegisters =>
      Out2Valid(opcode, opA.value, opB.value, info.code);
      Out2Records(opcode, opA.value, opB.value, info.code)
    case RegisterImmediate =>
      Out8Valid(opcode, opA.value, opB.value, info.code);
      Out8Records(opcode, opA.value, opB.value, info.code)
  }

  /** Entries a line's body may emit: no markers, and every byte valid binary text. */
  ghost predicate Emitted(rs: seq<Record>) {
    (forall i :: 0 <= i < |rs| ==> !rs[i].Marker?) && EntriesValid(rs)
  }

  /** One entry a body may emit: not a marker, and valid binary text if a byte. */
  ghost predicate Emittable(r: Record) {
    !r.Marker? && (r.Byte? ==> IsBinary(r.bits) && |r.bits| >= 8) && (r.Pending? ==> IsWord(r.name))
  }

  lemma TwoValid(x: Record, y: Record)
    requires Emittable(x) && Emittable(y)
    ensures Emitted([x, y])
  {
  }

  lemma ThreeValid(x: Record, y: Record, z: Record)
    requires Emittable(x) && Emittable(y) && Emittable(z)
    ensures Emitted([x, y, z])
  {
  }

  lemma Out1Valid(opcode: string, a: string, code: string)
    requires IsBinary(code) && |code| == 8
    ensures Out1Records(opcode, a, code).Ok? ==> Emitted(Out1Records(opcode, a, code).value)
  {
    if GetReg(a).Ok? {
      TwoValid(Byte(code, opcode + " " + a), RegisterByte(a).value);
    }
  }

  lemma Out2Valid(opcode: string, a: string, b: string, code: string)
    requires IsBinary(code) && |code| == 8
    ensures Out2Records(opcode, a, b, code).Ok? ==> Emitted(Out2Records(opcode, a, b, code).value)
  {
    if GetReg(a).Ok? && GetReg(b).Ok? {
      ThreeValid(Byte(code, opcode + " " + a + "," + b), RegisterByte(a).value, RegisterByte(b).value);
    }
  }

  lemma Out8Valid(opcode: string, a: string, b: string, code: string)
    requires IsBinary(code) && |code| == 8 && IsWord(b)
    ensures Out8Records(opcode, a, b, code).Ok? ==> Emitted(Out8Records(opcode, a, b, code).value)
  {
    if GetReg(a).Ok? {
      ImmediateMeaning(b);
      ThreeValid(Byte(code, opcode + " " + a + "," + b), RegisterByte(a).value, Immediate(b));
    }
  }

  /** The byte DS emits for one character: its code, annotated with the character, `[space]` for a space. */
  function CharByte(c: char): Record {
    Byte(Padded(c as nat), if c == ' ' then "[space]" else [c])
  }

  /** What DS emits for its argument: one byte per character, in order. */
  function StringBytes(data: string): (r: seq<Record>)
    ensures |r| == |data|
    ensures forall i :: 0 <= i < |r| ==> r[i].Byte? && FromBinary(r[i].bits) == data[i] as int
    ensures forall i :: 0 <= i < |r| ==> r[i].bits == Padded(data[i] as nat)
    ensures forall i :: 0 <= i < |r| && data[i] as int < 256 ==> |r[i].bits| == 8
    ensures forall i :: 0 <= i < |r| ==> r[i].note == (if data[i] == ' ' then "[space]" else [data[i]])
    ensures EntriesValid(r)
  {
    seq(|data|, i requires 0 <= i < |data| => CharByte(data[i]))
  }

  /**
   * What DB emits for its argument: the value `parseInt` reads, masked to
   * its low eight bits, annotated with the argument as written; "missing
   * argument" for no argument and "invalid integer" when `parseInt` gives
   * `NaN`.
   */
  function DataByte(data: string): (r: Result<seq<Record>, Failure>)
    ensures DataOutcome(data, ParseInt(data), r)
  {
    DataRead(data, ParseInt(data))
  }

  /**
   * DB's outcome `r` for the argument `data` when `parseInt` read `read`
   * from it: "missing argument" for no argument, "invalid integer" for
   * `NaN`, and otherwise one valid eight-digit byte annotated with `data`
   * whose value is `val & 0xff`, below 256 and differing from `val` by a
   * multiple of 256.
   */
  ghost predicate DataOutcome(data: string, read: Option<int>, r: Result<seq<Record>, Failure>) {
    (data == [] ==> r == Err(MissingArgument("DB")))
    && (data != [] && read.None? ==> r == Err(InvalidInteger(data)))
    && (r.Ok? <==> data != [] && read.Some?)
    && (r.Ok? ==> |r.value| == 1 && r.value[0].Byte? && r.value[0].note == data && |r.value[0].bits| == 8)
    && (r.Ok? ==> FromBinary(r.value[0].bits) == LowByte(read.value))
    && (r.Ok? ==> FromBinary(r.value[0].bits) < 256 && (read.value - FromBinary(r.value[0].bits)) % 256 == 0)
    && (r.Ok? ==> EntriesValid(r.value))
  }

  /** DB's entries for the argument `data`, given what `parseInt` read from it. */
  function DataRead(data: string, read: Option<int>): (r: Result<seq<Record>, Failure>)
    ensures DataOutcome(data, read, r)
  {
    if data == [] then Err(MissingArgument("DB"))
    else
      match read
      case None => Err(InvalidInteger(data))
      case Some(v) => Ok([DataRecord(v, data)])
  }

  /** The byte `handleDB` writes for the value `v` read from `data`: `p8(val & 0xff)`, annotated with `data`. */
  function DataRecord(v: int, data: string): (b: Record)
    ensures b.Byte? && b.note == data && IsBinary(b.bits) && |b.bits| == 8
    ensures FromBinary(b.bits) == LowByte(v)
  {
    Byte(Padded(LowByte(v)), data)
  }

  /** The entries a line emits after its label: by opcode, DS, DB or an instruction checked by `checkOps`. */
  function Body(f: Fields): (r: Result<seq<Record>, Failure>)
    requires f.opB.Some? ==> f.opA.Some?
    requires f.opA.Some? ==> IsWord(f.opA.value)
    requires f.opB.Some? ==> IsWord(f.opB.value)
    ensures f.opcode.None? ==> r == Ok([])
    ensures f.opcode == Some("DS") ==> r == (if f.data == [] then Err(MissingArgument("DS")) else Ok(StringBytes(f.data)))
    ensures f.opcode == Some("DB") ==> r == DataByte(f.data)
    ensures f.opcode.Some? && f.opcode.value != "DS" && f.opcode.value != "DB" && CheckOps(f.opcode.value, f.opA, f.opB).Err? ==>
      r == Err(CheckOps(f.opcode.value, f.opA, f.opB).error)
    ensures f.opcode.Some? && f.opcode.value != "DS" && f.opcode.value != "DB" && CheckOps(f.opcode.value, f.opA, f.opB).Ok? ==>
      r == Instruction(f.opcode.value, Ops[f.opcode.value], f.opA, f.opB)
    ensures r.Ok? ==> (forall i :: 0 <= i < |r.value| ==> !r.value[i].Marker?) && EntriesValid(r.value)
  {
    match f.opcode
    case None => Ok([])
    case Some(op) =>
      if op == "DS" then (if f.data == [] then Err(MissingArgument("DS")) else Ok(StringBytes(f.data)))
      else if op == "DB" then DataByte(f.data)
      else
        match CheckOps(op, f.opA, f.opB)
        case Err(e) => Err(e)
        case Ok(info) => Instruction(op, info, f.opA, f.opB)
  }

  /** The label marker a line records at the current address, if it has a label. */
  function LabelRecords(f: Fields, addr: nat): seq<Record> {
    if f.symbol.Some? then [Marker(f.symbol.value, addr)] else []
  }

  /** Putting the label marker in front of marker-free entries places it at `addr` and nowhere else. */
  lemma LabelFirst(f: Fields, addr: nat, rs: seq<Record>)
    requires forall i :: 0 <= i < |rs| ==> !rs[i].Marker?
    requires EntriesValid(rs)
    ensures var out := LabelRecords(f, addr) + rs;
      PlacedAfter(out, addr) && EntriesValid(out) && forall i :: 0 < i < |out| ==> !out[i].Marker?
  {
    var out := LabelRecords(f, addr) + rs;
    forall i | 0 <= i < |out| && out[i].Marker?
      ensures i == 0 && out[i].addr == addr + ByteCount(out[..i])
    {
      assert out[..i] == [];
    }
  }

  /**
   * Everything one source line adds to the code list when the address
   * counter stands at `addr`: its label marker, then its bytes.
   */
  function LineRecords(input: string, addr: nat): (r: Result<seq<Record>, Failure>)
    ensures var f := Parse(input);
      (r.Ok? ==> (f.symbol.Some? <==> |r.value| > 0 && r.value[0].Marker?))
      && (r.Ok? && f.symbol.Some? ==> r.value[0] == Marker(f.symbol.value, addr))
      && (r.Err? <==> Body(f).Err?)
  {
    var f := Parse(input);
    var b := Body(f);
    if b.Err? then Err(b.error)
    else
      LabelHead(f, addr, b.value);
      Ok(LabelRecords(f, addr) + b.value)
  }

  /** Before marker-free entries, the first entry is a marker exactly when there is a label, and it is that label's. */
  lemma LabelHead(f: Fields, addr: nat, rs: seq<Record>)
    requires forall i :: 0 <= i < |rs| ==> !rs[i].Marker?
    ensures var out := LabelRecords(f, addr) + rs;
      (f.symbol.Some? <==> |out| > 0 && out[0].Marker?)
      && (f.symbol.Some? ==> out[0] == Marker(f.symbol.value, addr))
  {
  }

  /**
   * A line's entries can be appended at `addr`: only the first can be a
   * marker, it holds `addr`, and every byte is valid binary text.
   */
  lemma LinePlaced(input: string, addr: nat)
    ensures var r := LineRecords(input, addr);
      r.Ok? ==> (forall i :: 0 < i < |r.value| ==> !r.value[i].Marker?) && PlacedAfter(r.value, addr) && EntriesValid(r.value)
  {
    FieldsPlaced(Parse(input), addr);
  }

  /** The entries built from parsed fields, when the body assembles. */
  lemma FieldsPlaced(f: Fields, addr: nat)
    requires f.opB.Some? ==> f.opA.Some?
    requires f.opA.Some? ==> IsWord(f.opA.value)
    requires f.opB.Some? ==> IsWord(f.opB.value)
    ensures Body(f).Ok? ==> var out := LabelRecords(f, addr) + Body(f).value;
      (forall i :: 0 < i < |out| ==> !out[i].Marker?) && PlacedAfter(out, addr) && EntriesValid(out)
  {
    if Body(f).Ok? {
      LabelFirst(f, addr, Body(f).value);
    }
  }

  /** A line with nothing but whitespace and a comment emits nothing. */
  lemma BlankLine(input: string, addr: nat)
    requires Clean(input) == []
    ensures LineRecords(input, addr) == Ok([])
  {
    BlankFields(input);
    NoFields(input, addr);
  }

  /** A line without fields emits nothing. */
  lemma NoFields(input: string, addr: nat)
    requires Parse(input) == Fields(None, None, None, None, [])
    ensures LineRecords(input, addr) == Ok([])
  {
    EmptyFields(Parse(input), addr);
  }

  /** Fields with nothing in them emit nothing. */
  lemma EmptyFields(f: Fields, addr: nat)
    requires f == Fields(None, None, None, None, [])
    ensures Body(f) == Ok([]) && LabelRecords(f, addr) + Body(f).value == []
  {
  }

  /** A blank line has no fields at all. */
  lemma BlankFields(input: string)
    requires Clean(input) == []
    ensures Parse(input) == Fields(None, None, None, None, [])
  {
  }

  /** The assembler's state between lines: symbol table, code list and address counter. */
  datatype State = State(sym: map<string, nat>, code: seq<Record>, addr: nat)

  /**
   * The invariant of Pass 1: the address counter counts the bytes emitted,
   * each marker holds its own address, the symbol table is what the markers
   * say, and every byte is valid binary text.
   */
  ghost predicate WellFormed(st: State) {
    st.addr == ByteCount(st.code) && MarkersPlaced(st.code) && st.sym == Bindings(st.code) && EntriesValid(st.code)
  }

  /** The state after a line's entries are appended. */
  function Apply(st: State, rs: seq<Record>): State {
    State(st.sym + Bindings(rs), st.code + rs, st.addr + ByteCount(rs))
  }

  /** Appending the entries of a line keeps Pass 1's invariant. */
  lemma ApplyWellFormed(st: State, rs: seq<Record>)
    requires WellFormed(st) && PlacedAfter(rs, st.addr) && EntriesValid(rs)
    ensures WellFormed(Apply(st, rs))
  {
    ByteCountAppend(st.code, rs);
    BindingsAppend(st.code, rs);
    AppendPlaced(st.code, rs);
  }

  /** Appending no entries leaves the state as it is. */
  lemma ApplyNothing(st: State)
    ensures Apply(st, []) == st
  {
    assert st.code + [] == st.code;
    assert st.sym + map[] == st.sym;
  }

  /** Appending in two steps is appending once. */
  lemma ApplyTwice(st: State, a: seq<Record>, b: seq<Record>)
    ensures Apply(Apply(st, a), b) == Apply(st, a + b)
  {
    ByteCountAppend(a, b);
    BindingsAppend(a, b);
  }

  /**
   * Pass 1 over the lines read so far: the state after the last of them, or
   * the first failing line, numbered from 1 like the source's `line`.
   */
  function Pass1(lines: seq<string>): (r: Result<State, Abort>)
    ensures r.Ok? ==> WellFormed(r.value)
    ensures r.Err? ==> r.error.AtLine? && 1 <= r.error.line <= |lines|
  {
    if lines == [] then Ok(State(map[], [], 0))
    else
      match Pass1(lines[..|lines| - 1])
      case Err(e) => Err(e)
      case Ok(st) =>
        match LineRecords(lines[|lines| - 1], st.addr)
        case Err(f) => Err(AtLine(|lines|, f))
        case Ok(rs) =>
          LinePlaced(lines[|lines| - 1], st.addr);
          ApplyWellFormed(st, rs);
          Ok(Apply(st, rs))
  }
  /** Pass 1 over one more line: the state so far with that line's entries appended, or the first failure. */
  lemma Pass1Step(lines: seq<string>, i: nat)
    requires i < |lines|
    ensures Pass1(lines[..i + 1]) ==
      match Pass1(lines[..i])
      case Err(e) => Err(e)
      case Ok(st) =>
        match LineRecords(lines[i], st.addr)
        case Err(f) => Err(AtLine(i + 1, f))
        case Ok(rs) => Ok(Apply(st, rs))
  {
    PrefixStep(lines, i);
  }

  /** The first `i + 1` lines are the first `i` lines and line `i`. */
  lemma PrefixStep(lines: seq<string>, i: nat)
    requires i < |lines|
    ensures lines[..i + 1][..i] == lines[..i] && lines[..i + 1][i] == lines[i]
  {
  }

  /** Taking all the lines is taking the lines. */
  lemma PrefixAll(lines: seq<string>)
    ensures lines[..|lines|] == lines
  {
  }

  /** A prefix of all lines but the last is a prefix of the lines. */
  lemma PrefixInit(lines: seq<string>, k: nat)
    requires k < |lines|
    ensures lines[..|lines| - 1][..k] == lines[..k]
  {
  }

  /** The first failing line stops Pass 1: later lines change nothing, the failure is reported as it was. */
  lemma {:induction false} FailureStops(lines: seq<string>, k: nat)
    requires k <= |lines| && Pass1(lines[..k]).Err?
    ensures Pass1(lines) == Pass1(lines[..k])
    decreases |lines|
  {
    if k == |lines| {
      PrefixAll(lines);
    } else {
      PrefixInit(lines, k);
      FailureStops(lines[..|lines| - 1], k);
    }
  }

  /** A blank or comment-only line leaves Pass 1's state as it was; it only advances the line counter. */
  lemma BlankNoEffect(lines: seq<string>, blank: string)
    requires Clean(blank) == []
    ensures Pass1(lines + [blank]).Ok? <==> Pass1(lines).Ok?
    ensures Pass1(lines).Ok? ==> Pass1(lines + [blank]) == Pass1(lines)
  {
    var all := lines + [blank];
    Pass1Step(all, |lines|);
    LastLine(lines, blank);
    if Pass1(lines).Ok? {
      var st := Pass1(lines).value;
      BlankLine(blank, st.addr);
      ApplyNothing(st);
    }
  }

  /** The lines before an appended line, and the appended line itself. */
  lemma LastLine(lines: seq<string>, last: string)
    ensures (lines + [last])[..|lines|] == lines
    ensures (lines + [last])[..|lines| + 1] == lines + [last]
    ensures (lines + [last])[|lines|] == last
  {
  }

  /**
   * `parseInt` knows no `0b` prefix: it reads the leading `0` and stops at
   * the `b`, so `DB 0b0001` emits the byte 0, not 1.
   */
  lemma BinaryLiteralData()
    ensures ParseInt("0b0001") == Some(0)
    ensures DataByte("0b0001").Ok? && FromBinary(DataByte("0b0001").value[0].bits) == 0
  {
    assert TrimStart("0b0001") == "0b0001";
    assert DigitRun("0b0001", 10) == 1;
    assert "0b0001"[..1] == "0";
  }

  /** `DB -1` emits the byte `11111111`: `parseInt` reads -1, and `& 0xff` gives 255. */
  lemma NegativeData()
    ensures ParseInt("-1") == Some(-1)
    ensures DataByte("-1") == Ok([Byte("11111111", "-1")])
  {
    MinusOne();
    var r := DataRecord(-1, "-1");
    AllOnes(r.bits);
  }

  lemma MinusOne()
    ensures ParseInt("-1") == Some(-1)
  {
    OneDigit();
    assert "1" + [] == "1";
    MinusLiteral("1", [], 1);
    assert "-" + "1" + [] == "-1";
  }

  lemma OneDigit()
    ensures ParseMagnitude("1") == Some(1)
  {
    assert DigitRun("1", 10) == 1;
    assert "1"[..1] == "1";
    assert Value("1", 10) == 1 by {
      assert "1"[..0] == [];
    }
  }

  /** The only eight-digit binary text worth 255 is `11111111`. */
  lemma AllOnes(b: string)
    requires IsBinary(b) && |b| == 8 && FromBinary(b) == 255
    ensures b == "11111111"
  {
    ByteTextRoundTrip(b);
    ByteTextRoundTrip("11111111");
    var s := "";
    for i := 0 to 8
      invariant |s| == i && FromBinary(s) == Pow2(i) - 1
      invariant forall k :: 0 <= k < i ==> s[k] == '1'
    {
      AppendOneBit(s);
      s := s + "1";
    }
    assert s == "11111111";
  }

  /** A DB line with nothing after the opcode fails with "missing argument", whatever its label. */
  lemma MissingData(input: string, addr: nat)
    requires Parse(input).opcode == Some("DB") && Parse(input).data == []
    ensures LineRecords(input, addr) == Err(MissingArgument("DB"))
  {
  }

  /**
   * The line `DB1: DB` as the source handles it: `regexDB` finds no text
   * after the opcode, so its search settles on the `DB` inside the label and
   * captures `1: DB`, which `parseInt` reads as 1. A byte is emitted where
   * "missing argument" was due.
   */
  lemma DataInLabelAsWritten()
    ensures PseudoDataAsWritten("DB1: DB", "DB") == Some("1: DB")
    ensures ParseInt("1: DB") == Some(1)
  {
    LabelSearchResult();
    LabelTailValue();
  }

  lemma LabelSearchResult()
    ensures PseudoDataAsWritten("DB1: DB", "DB") == Some("1: DB")
  {
    LabelOnlyCases();
    LabelOnlySearch();
  }

  lemma LabelOnlySearch()
    ensures PseudoDataAsWritten("DB1: DB", "DB") == PseudoDataCases("DB1: DB", "DB")
  {
    LabelOnlyLine("DB1: DB");
  }

  lemma LabelOnlyLine(s: string)
    requires s == "DB1: DB"
    ensures PseudoDataAsWritten(s, "DB") == PseudoDataCases(s, "DB")
  {
    LabelOnlyMatch();
    LabelOnlyTrimmed(s);
    LabelOnlyUpper();
    LabelOnlySearchAt(s, "DB");
  }

  lemma LabelOnlySearchAt(s: string, op: string)
    requires s != [] ==> !IsSpace(s[0]) && !IsSpace(s[|s| - 1])
    requires Match(s).opcode == Some(op) && Upper(op) == "DB"
    ensures PseudoDataAsWritten(s, "DB") == PseudoDataCases(s, "DB")
  {
    PseudoSearch(s, "DB");
  }

  lemma LabelOnlyTrimmed(s: string)
    requires s == "DB1: DB"
    ensures s != [] ==> !IsSpace(s[0]) && !IsSpace(s[|s| - 1])
  {
  }

  lemma LabelOnlyCases()
    ensures PseudoDataCases("DB1: DB", "DB") == Some("1: DB")
  {
    LabelOnlyMatch();
    LabelSearch();
    assert PseudoDataCases("DB1: DB", "DB") == InLabel("DB1: DB", "DB1", "DB");
  }

  lemma LabelSearch()
    ensures FindCaseless("DB1", "DB", 0) == Some(0) && "DB1: DB"[2..] == "1: DB"
  {
    assert SameLetter('D', 'D') && SameLetter('B', 'B');
  }

  lemma LabelTailValue()
    ensures ParseInt("1: DB") == Some(1)
  {
    assert TrimStart("1: DB") == "1: DB";
    assert DigitRun("1: DB", 10) == 1;
    assert "1: DB"[..1] == "1";
  }

  /** The same line in this model: the argument is the text after the opcode, so DB reports it missing. */
  lemma DataInLabelCorrected()
    ensures LineRecords("DB1: DB", 0) == Err(MissingArgument("DB"))
  {
    LabelOnlyFields();
    MissingData("DB1: DB", 0);
  }

  lemma LabelOnlyMatch()
    ensures Match("DB1: DB") == Fields(Some("DB1"), Some("DB"), None, None, [])
  {
    var l := Layout(Some("DB1"), " ", Some("DB"), "", None, "", "", None, "");
    assert l.Text() == "DB1: DB";
    MatchLayout(l);
  }

  lemma LabelOnlyFields()
    ensures Parse("DB1: DB") == Fields(Some("DB1"), Some("DB"), None, None, [])
  {
    LabelOnlyClean();
    LabelOnlyMatch();
    LabelOnlyUpper();
  }

  lemma LabelOnlyUpper()
    ensures Upper("DB1") == "DB1" && Upper("DB") == "DB"
  {
  }

  lemma LabelOnlyClean()
    ensures Clean("DB1: DB") == "DB1: DB"
  {
    assert StripComment("DB1: DB") == "DB1: DB";
    TrimUnchanged("DB1: DB");
  }
}
