/**
 * The entries of the assembler's `code` list and the failures that stop a run.
 *
 * In the source every entry of `code` is a text line. Three shapes occur:
 * a byte (eight binary digits, optionally ` # ` and a note), a `sym:NAME`
 * placeholder for an LDI operand whose label is resolved in Pass 2, and a
 * `# LABEL (addr):` line recording where a label was bound. Here they are
 * the three cases of `Record`; the text is produced in Pass 2 (see Resolver).
 */
module Records {
  import opened Text
  import opened Binary

  /**
   * `Byte` holds the binary digits and the note after ` # `; an empty note
   * stands for a line with no ` # ` (every note the source writes is non-empty).
   */
  datatype Record =
    | Byte(bits: string, note: string)
    | Pending(name: string)
    | Marker(symbol: string, addr: nat)

  /** The fatal conditions of Pass 1, each of which ends the process with an exit status. */
  datatype Failure =
    | UnknownOpcode(opcode: string)
    | MissingOperand(opcode: string)
    | UnexpectedOperand(opcode: string)
    | UnknownRegister(operand: string)
    | MissingArgument(pseudo: string)
    | InvalidInteger(data: string)
  {
    /** The status passed to `process.exit`: 1 for operand and register errors, 2 for the rest. */
    function ExitCode(): (code: nat)
      ensures code == 1 <==> MissingOperand? || UnexpectedOperand? || UnknownRegister?
      ensures code == 1 || code == 2
    {
      match this
      case MissingOperand(_) => 1
      case UnexpectedOperand(_) => 1
      case UnknownRegister(_) => 1
      case _ => 2
    }
  }

  /** How a whole run stops early: a Pass 1 failure on a 1-based source line, or an unknown symbol in Pass 2. */
  datatype Abort =
    | AtLine(line: nat, failure: Failure)
    | UnknownSymbol(name: string)
  {
    /** The status passed to `process.exit`: a Pass 1 failure's own status, 2 for an unknown symbol. */
    function ExitCode(): (code: nat)
      ensures code == 1 || code == 2
      ensures AtLine? ==> code == failure.ExitCode()
      ensures UnknownSymbol? ==> code == 2
    {
      match this
      case AtLine(_, f) => f.ExitCode()
      case UnknownSymbol(_) => 2
    }
  }

  /** The number of entries that occupy a byte of the program: all but the label markers. */
  function ByteCount(code: seq<Record>): nat
  {
    if code == [] then 0
    else ByteCount(code[..|code| - 1]) + (if code[|code| - 1].Marker? then 0 else 1)
  }

  /**
   * Every byte entry is written as at least eight binary digits, as `p8` and
   * the opcode table produce, and every placeholder names a `\w+` capture.
   */
  ghost predicate EntriesValid(code: seq<Record>) {
    (forall i :: 0 <= i < |code| && code[i].Byte? ==> IsBinary(code[i].bits) && |code[i].bits| >= 8)
    && (forall i :: 0 <= i < |code| && code[i].Pending? ==> IsWord(code[i].name))
  }

  /** Every label marker carries the address it was bound at: the number of bytes before it. */
  ghost predicate MarkersPlaced(code: seq<Record>) {
    forall i :: 0 <= i < |code| && code[i].Marker? ==> code[i].addr == ByteCount(code[..i])
  }

  /** The symbol table the markers describe: each label at its last marker's address. */
  function Bindings(code: seq<Record>): map<string, nat>
  {
    if code == [] then map[]
    else
      var m := Bindings(code[..|code| - 1]);
      match code[|code| - 1]
      case Marker(symbol, addr) => m[symbol := addr]
      case _ => m
  }

  /** Byte counts add up over concatenation. */
  lemma {:induction false} ByteCountAppend(a: seq<Record>, b: seq<Record>)
    ensures ByteCount(a + b) == ByteCount(a) + ByteCount(b)
  {
    if b == [] {
      assert a + b == a;
    } else {
      assert (a + b)[..|a + b| - 1] == a + b[..|b| - 1];
      ByteCountAppend(a, b[..|b| - 1]);
    }
  }

  /** A run of entries without markers occupies one byte per entry and binds nothing. */
  lemma {:induction false} NoMarkers(code: seq<Record>)
    requires forall i :: 0 <= i < |code| ==> !code[i].Marker?
    ensures ByteCount(code) == |code| && Bindings(code) == map[]
  {
    if code != [] {
      NoMarkers(code[..|code| - 1]);
    }
  }

  /** Later markers override earlier ones: the bindings of `a + b` are those of `a` updated by those of `b`. */
  lemma {:induction false} BindingsAppend(a: seq<Record>, b: seq<Record>)
    ensures Bindings(a + b) == Bindings(a) + Bindings(b)
  {
    if b == [] {
      assert a + b == a;
    } else {
      assert (a + b)[..|a + b| - 1] == a + b[..|b| - 1];
      BindingsAppend(a, b[..|b| - 1]);
    }
  }

  /** `b`'s markers are placed as if `b` were appended to a list holding `base` bytes. */
  ghost predicate PlacedAfter(b: seq<Record>, base: nat) {
    forall i :: 0 <= i < |b| && b[i].Marker? ==> b[i].addr == base + ByteCount(b[..i])
  }

  /** Appending entries placed after the current byte count keeps every marker placed. */
  lemma AppendPlaced(a: seq<Record>, b: seq<Record>)
    requires MarkersPlaced(a) && PlacedAfter(b, ByteCount(a))
    ensures MarkersPlaced(a + b)
  {
    forall i | 0 <= i < |a + b| && (a + b)[i].Marker?
      ensures (a + b)[i].addr == ByteCount((a + b)[..i])
    {
      if i < |a| {
        assert (a + b)[..i] == a[..i];
      } else {
        assert (a + b)[..i] == a + b[..i - |a|];
        ByteCountAppend(a, b[..i - |a|]);
      }
    }
  }

  /** Entry `i` is the last marker for `name`, it records `addr`, and `addr` bytes precede it. */
  ghost predicate LastMarkerAt(code: seq<Record>, name: string, addr: nat, i: int) {
    0 <= i < |code| && code[i] == Marker(name, addr) && ByteCount(code[..i]) == addr
    && forall j :: i < j < |code| ==> !(code[j].Marker? && code[j].symbol == name)
  }

  /**
   * A bound label's address is the number of bytes emitted before its last
   * marker: a label gets the address counter's value before its line emits.
   */
  lemma {:induction false} LabelAddress(code: seq<Record>, name: string)
    requires MarkersPlaced(code) && name in Bindings(code)
    ensures exists i :: LastMarkerAt(code, name, Bindings(code)[name], i)
  {
    var n := |code|;
    var prefix := code[..n - 1];
    if code[n - 1].Marker? && code[n - 1].symbol == name {
      assert LastMarkerAt(code, name, Bindings(code)[name], n - 1);
    } else {
      PlacedPrefix(code);
      LabelAddress(prefix, name);
      var i :| LastMarkerAt(prefix, name, Bindings(prefix)[name], i);
      LastMarkerKept(code, name, Bindings(prefix)[name], i);
      assert Bindings(code)[name] == Bindings(prefix)[name];
    }
  }

  /** An entry that is not a marker for `name` keeps the last marker for `name` where it was. */
  lemma LastMarkerKept(code: seq<Record>, name: string, addr: nat, i: int)
    requires code != [] && LastMarkerAt(code[..|code| - 1], name, addr, i)
    requires !(code[|code| - 1].Marker? && code[|code| - 1].symbol == name)
    ensures LastMarkerAt(code, name, addr, i)
  {
    assert code[..|code| - 1][..i] == code[..i];
  }

  /** Dropping the last entry keeps every marker placed. */
  lemma PlacedPrefix(code: seq<Record>)
    requires MarkersPlaced(code) && code != []
    ensures MarkersPlaced(code[..|code| - 1])
  {
    var prefix := code[..|code| - 1];
    forall i | 0 <= i < |prefix| && prefix[i].Marker?
      ensures prefix[i].addr == ByteCount(prefix[..i])
    {
      assert prefix[..i] == code[..i];
    }
  }
}
