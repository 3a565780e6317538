/**
 * The LS-8 instruction table and the two operand checks made before an
 * instruction is encoded: the operand count (`checkOps`) and the register
 * syntax (`getReg`).
 */
module Opcodes {
  import opened Wrappers
  import opened Binary
  import opened Records

  /**
   * The operand shape of a mnemonic. The source numbers them 0, 1, 2 and 8:
   * no operand, one register, two registers, and a register with an
   * immediate value or label (LDI only).
   */
  datatype Arity = NoOperand | OneRegister | TwoRegisters | RegisterImmediate
  {
    /** How many operands the mnemonic takes: types 0, 1 and 2 that many, type 8 two. */
    function Operands(): (n: nat)
      ensures n <= 2
      ensures n == 0 <==> NoOperand?
      ensures n == 1 <==> OneRegister?
    {
      match this
      case NoOperand => 0
      case OneRegister => 1
      case TwoRegisters => 2
      case RegisterImmediate => 2
    }
  }

  /** A table entry: the operand shape and the opcode byte as eight binary digits. */
  datatype OpInfo = OpInfo(arity: Arity, code: string)

  /** The mnemonics the assembler knows. */
  const Ops: map<string, OpInfo> := map[
    "ADD"  := OpInfo(TwoRegisters, "00001100"),
    "CALL" := OpInfo(OneRegister, "00001111"),
    "CMP"  := OpInfo(TwoRegisters, "00010110"),
    "DEC"  := OpInfo(OneRegister, "00011000"),
    "DIV"  := OpInfo(TwoRegisters, "00001110"),
    "HLT"  := OpInfo(NoOperand, "00011011"),
    "INC"  := OpInfo(OneRegister, "00010111"),
    "INT"  := OpInfo(OneRegister, "00011001"),
    "IRET" := OpInfo(NoOperand, "00011010"),
    "JEQ"  := OpInfo(OneRegister, "00010011"),
    "JMP"  := OpInfo(OneRegister, "00010001"),
    "JNE"  := OpInfo(OneRegister, "00010100"),
    "LD"   := OpInfo(TwoRegisters, "00010010"),
    "LDI"  := OpInfo(RegisterImmediate, "00000100"),
    "MUL"  := OpInfo(TwoRegisters, "00000101"),
    "NOP"  := OpInfo(NoOperand, "00000000"),
    "POP"  := OpInfo(OneRegister, "00001011"),
    "PRA"  := OpInfo(OneRegister, "00000111"),
    "PRN"  := OpInfo(OneRegister, "00000110"),
    "PUSH" := OpInfo(OneRegister, "00001010"),
    "RET"  := OpInfo(NoOperand, "00010000"),
    "ST"   := OpInfo(TwoRegisters, "00001001"),
    "SUB"  := OpInfo(TwoRegisters, "00001101")
  ]

  /** Every opcode in the table is eight binary digits, so it renders back unchanged through `p8`. */
  lemma OpcodeText(mnemonic: string)
    requires mnemonic in Ops
    ensures IsBinary(Ops[mnemonic].code) && |Ops[mnemonic].code| == 8
    ensures FromBinary(Ops[mnemonic].code) < 256
    ensures Padded(FromBinary(Ops[mnemonic].code)) == Ops[mnemonic].code
  {
    ByteTextRoundTrip(Ops[mnemonic].code);
  }

  /** The table read backwards: the mnemonic of each opcode byte. */
  const Mnemonics: map<string, string> := map[
    "00001100" := "ADD", "00001111" := "CALL", "00010110" := "CMP", "00011000" := "DEC",
    "00001110" := "DIV", "00011011" := "HLT", "00010111" := "INC", "00011001" := "INT",
    "00011010" := "IRET", "00010011" := "JEQ", "00010001" := "JMP", "00010100" := "JNE",
    "00010010" := "LD", "00000100" := "LDI", "00000101" := "MUL", "00000000" := "NOP",
    "00001011" := "POP", "00000111" := "PRA", "00000110" := "PRN", "00001010" := "PUSH",
    "00010000" := "RET", "00001001" := "ST", "00001101" := "SUB"
  ]

  /** Every opcode byte decodes back to its mnemonic. */
  lemma DecodeOpcode(mnemonic: string)
    requires mnemonic in Ops
    ensures Ops[mnemonic].code in Mnemonics && Mnemonics[Ops[mnemonic].code] == mnemonic
  {
    if mnemonic in {"ADD", "CALL"} {
      DecodeAddToCall(mnemonic);
    } else if mnemonic in {"CMP", "DEC"} {
      DecodeCmpToDec(mnemonic);
    } else if mnemonic in {"DIV", "HLT", "INC"} {
      DecodeDivToInc(mnemonic);
    } else if mnemonic in {"INT", "IRET", "JEQ", "JMP"} {
      DecodeIntToJmp(mnemonic);
    } else if mnemonic in {"JNE", "LD", "LDI", "MUL", "NOP"} {
      DecodeJneToNop(mnemonic);
    } else {
      DecodePopToSub(mnemonic);
    }
  }

  // The table is split into slices so that each lookup stays a small case analysis.

  lemma DecodeAddToCall(mnemonic: string)
    requires mnemonic in {"ADD", "CALL"}
    ensures Ops[mnemonic].code in Mnemonics && Mnemonics[Ops[mnemonic].code] == mnemonic
  {
  }

  lemma DecodeCmpToDec(mnemonic: string)
    requires mnemonic in {"CMP", "DEC"}
    ensures Ops[mnemonic].code in Mnemonics && Mnemonics[Ops[mnemonic].code] == mnemonic
  {
  }

  lemma DecodeDivToInc(mnemonic: string)
    requires mnemonic in {"DIV", "HLT", "INC"}
    ensures Ops[mnemonic].code in Mnemonics && Mnemonics[Ops[mnemonic].code] == mnemonic
  {
  }

  lemma DecodeIntToJmp(mnemonic: string)
    requires mnemonic in {"INT", "IRET", "JEQ", "JMP"}
    ensures Ops[mnemonic].code in Mnemonics && Mnemonics[Ops[mnemonic].code] == mnemonic
  {
  }

  lemma DecodeJneToNop(mnemonic: string)
    requires mnemonic in {"JNE", "LD", "LDI", "MUL", "NOP"}
    ensures Ops[mnemonic].code in Mnemonics && Mnemonics[Ops[mnemonic].code] == mnemonic
  {
  }

  lemma DecodePopToSub(mnemonic: string)
    requires mnemonic in {"POP", "PRA", "PRN", "PUSH", "RET", "ST", "SUB"}
    ensures Ops[mnemonic].code in Mnemonics && Mnemonics[Ops[mnemonic].code] == mnemonic
  {
  }

  /** No two mnemonics share an opcode, so an emitted opcode byte identifies its instruction. */
  lemma OpcodesDistinct(a: string, b: string)
    requires a in Ops && b in Ops && a != b
    ensures Ops[a].code != Ops[b].code
  {
    DecodeOpcode(a);
    DecodeOpcode(b);
  }

  /** The operand count as `checkOps` computes it: one for each operand present. */
  function OperandCount(opA: Option<string>, opB: Option<string>): nat {
    (if opA.Some? then 1 else 0) + (if opB.Some? then 1 else 0)
  }

  /**
   * `checkOps`: the mnemonic must be in the table (else exit 2), and the
   * number of operands must be the number its type demands, neither fewer
   * ("missing operand", exit 1) nor more ("unexpected operand", exit 1).
   */
  function CheckOps(opcode: string, opA: Option<string>, opB: Option<string>): (r: Result<OpInfo, Failure>)
    ensures r.Ok? <==> opcode in Ops && OperandCount(opA, opB) == Ops[opcode].arity.Operands()
    ensures r.Ok? ==> r.value == Ops[opcode]
    ensures r == Err(UnknownOpcode(opcode)) <==> opcode !in Ops
    ensures r == Err(MissingOperand(opcode)) <==>
      opcode in Ops && OperandCount(opA, opB) < Ops[opcode].arity.Operands()
    ensures r == Err(UnexpectedOperand(opcode)) <==>
      opcode in Ops && OperandCount(opA, opB) > Ops[opcode].arity.Operands()
  {
    if opcode !in Ops then Err(UnknownOpcode(opcode))
    else
      var info := Ops[opcode];
      var found := OperandCount(opA, opB);
      if found < info.arity.Operands() then Err(MissingOperand(opcode))
      else if found > info.arity.Operands() then Err(UnexpectedOperand(opcode))
      else Ok(info)
  }

  /** Position `j` of `op` holds `R` followed by a digit from 0 to 7: a match of `/R([0-7])/`. */
  predicate RegisterAt(op: string, j: int) {
    0 <= j && j + 1 < |op| && op[j] == 'R' && '0' <= op[j + 1] <= '7'
  }

  /** Position `j` holds the leftmost match of `/R([0-7])/` in `op`. */
  predicate FirstRegisterAt(op: string, j: int) {
    RegisterAt(op, j) && forall k :: 0 <= k < j ==> !RegisterAt(op, k)
  }

  /** The first position at or after `from` where `/R([0-7])/` matches. */
  function FindRegister(op: string, from: nat): (r: Option<nat>)
    ensures r.Some? ==> from <= r.value && RegisterAt(op, r.value)
    ensures r.Some? ==> forall k :: from <= k < r.value ==> !RegisterAt(op, k)
    ensures r.None? ==> forall k :: from <= k ==> !RegisterAt(op, k)
    decreases |op| - from
  {
    if from + 1 >= |op| then None
    else if RegisterAt(op, from) then Some(from)
    else FindRegister(op, from + 1)
  }

  /**
   * `getReg`: the register number named by the first `R0`..`R7` anywhere in
   * the operand (the match is not anchored); "unknown register" (exit 1) when
   * there is none.
   */
  function GetReg(op: string): (r: Result<nat, Failure>)
    ensures r.Ok? <==> exists j :: RegisterAt(op, j)
    ensures r.Err? ==> r.error == UnknownRegister(op)
    ensures r.Ok? ==> r.value < 8 && exists j :: FirstRegisterAt(op, j) && r.value == op[j + 1] as int - '0' as int
  {
    match FindRegister(op, 0)
    case Some(j) => assert FirstRegisterAt(op, j); Ok(op[j + 1] as int - '0' as int)
    case None => Err(UnknownRegister(op))
  }
}
