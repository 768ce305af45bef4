/** Parsing Capstone's operand text: registers, immediates, memory operands, operand lists. */
module Operands {
  import opened Wrappers
  import opened Words
  import opened Text
  import opened Ir

  /** The SSA version of each base written so far in the block; a missing base has version 0. */
  type Versions = map<VarBase, nat>

  function CurrentVar(versions: Versions, base: VarBase): VarId {
    VarId(base, if base in versions then versions[base] else 0)
  }

  function RegisterNamed(s: string): Option<VarBase> {
    if s in ["rax", "eax", "ax", "al", "ah"] then Some(RAX)
    else if s in ["rbx", "ebx", "bx", "bl", "bh"] then Some(RBX)
    else if s in ["rcx", "ecx", "cx", "cl", "ch"] then Some(RCX)
    else if s in ["rdx", "edx", "dx", "dl", "dh"] then Some(RDX)
    else if s in ["rsi", "esi", "si", "sil"] then Some(RSI)
    else if s in ["rdi", "edi", "di", "dil"] then Some(RDI)
    else if s in ["rsp", "esp", "sp", "spl"] then Some(RSP)
    else if s in ["rbp", "ebp", "bp", "bpl"] then Some(RBP)
    else if s in ["r8", "r8d", "r8w", "r8b"] then Some(R8)
    else if s in ["r9", "r9d", "r9w", "r9b"] then Some(R9)
    else if s in ["r10", "r10d", "r10w", "r10b"] then Some(R10)
    else if s in ["r11", "r11d", "r11w", "r11b"] then Some(R11)
    else if s in ["r12", "r12d", "r12w", "r12b"] then Some(R12)
    else if s in ["r13", "r13d", "r13w", "r13b"] then Some(R13)
    else if s in ["r14", "r14d", "r14w", "r14b"] then Some(R14)
    else if s in ["r15", "r15d", "r15w", "r15b"] then Some(R15)
    else if s in ["rflags", "eflags", "flags"] then Some(RFlags)
    else None
  }

  function ParseRegister(s: string): Option<VarBase> {
    RegisterNamed(ToLower(Trim(s)))
  }

  /** A 64-bit pattern read as a signed number (`as i64`). */
  function AsInt64(x: int): int64 {
    Signed(ToWord(x))
  }

  /** The digits after a minus sign; the negation of the least value wraps. */
  function NegativeOf(rest: string): Option<int64> {
    var v := if HexPrefixed(rest) then ParseI64(rest[2..], 16) else ParseI64(rest, 10);
    if v.Some? then Some(AsInt64(-(v.value as int))) else None
  }

  /** Hexadecimal constants are read as unsigned patterns, decimal ones as signed. */
  function PositiveOf(s: string): Option<int64> {
    if HexPrefixed(s) then
      var v := ParseU64(s[2..], 16);
      if v.Some? then Some(AsInt64(v.value)) else None
    else ParseI64(s, 10)
  }

  function ImmediateOf(s: string): Option<int64> {
    if s == "" then None
    else if s[0] == '-' then NegativeOf(Trim(s[1..]))
    else PositiveOf(s)
  }

  function ParseImmediate(text: string): Option<int64> {
    ImmediateOf(Trim(text))
  }

  // Operand lists.

  function Emitted(current: string): seq<string> {
    if Trim(current) == "" then [] else [Trim(current)]
  }

  /** What the scan produces from the text still to read, the piece being collected and the depth. */
  function ScanOperands(s: string, current: string, depth: nat): seq<string> {
    if s == "" then Emitted(current)
    else if s[0] == '[' then ScanOperands(s[1..], current + [s[0]], depth + 1)
    else if s[0] == ']' then ScanOperands(s[1..], current + [s[0]], if depth == 0 then 0 else depth - 1)
    else if s[0] == ',' && depth == 0 then Emitted(current) + ScanOperands(s[1..], "", 0)
    else ScanOperands(s[1..], current + [s[0]], depth)
  }

  function ParseOperandsSpec(opStr: string): seq<string> {
    ScanOperands(Trim(opStr), "", 0)
  }

  method ParseOperands(opStr: string) returns (result: seq<string>)
    ensures result == ParseOperandsSpec(opStr)
  {
    var s := Trim(opStr);
    result := [];
    if s == "" {
      return;
    }
    var current, depth: nat := "", 0;
    for i := 0 to |s|
      invariant result + ScanOperands(s[i..], current, depth) == ScanOperands(s, "", 0)
    {
      assert s[i..][1..] == s[i + 1..];
      match s[i]
      case '[' =>
        depth := depth + 1;
        current := current + [s[i]];
      case ']' =>
        depth := if depth == 0 then 0 else depth - 1;
        current := current + [s[i]];
      case _ =>
        if s[i] == ',' && depth == 0 {
          var piece := Trim(current);
          if piece != "" {
            result := result + [piece];
          }
          current := "";
        } else {
          current := current + [s[i]];
        }
    }
    var piece := Trim(current);
    if piece != "" {
      result := result + [piece];
    }
  }

  // Memory operands.

  function StripSizePrefix(s: string): string {
    var lower := ToLower(s);
    if "xmmword ptr " <= lower || "ymmword ptr " <= lower || "zmmword ptr " <= lower then s[12..]
    else if "tbyte ptr " <= lower || "tword ptr " <= lower || "oword ptr " <= lower
            || "qword ptr " <= lower || "dword ptr " <= lower then s[10..]
    else if "word ptr " <= lower || "byte ptr " <= lower then s[9..]
    else s
  }

  function IndexOf(s: string, c: char): (r: Option<nat>)
    ensures r.Some? ==> r.value < |s| && s[r.value] == c
  {
    if s == "" then None
    else if s[0] == c then Some(0)
    else var r := IndexOf(s[1..], c); if r.Some? then Some(r.value + 1) else None
  }

  function LastIndexOf(s: string, c: char): (r: Option<nat>)
    ensures r.Some? ==> r.value < |s| && s[r.value] == c
  {
    if s == "" then None
    else if s[|s| - 1] == c then Some(|s| - 1)
    else LastIndexOf(s[..|s| - 1], c)
  }

  function TrimStartChar(s: string, c: char): string {
    if s != "" && s[0] == c then TrimStartChar(s[1..], c) else s
  }

  /** The text between the outer brackets. A ']' before the '[' makes the original panic; here it
      yields the empty text. */
  function BracketContents(s: string): string {
    var start := IndexOf(s, '[');
    if start.None? then s
    else
      var end := LastIndexOf(s, ']');
      if end.None? then Trim(TrimStartChar(s, '['))
      else if start.value < end.value then Trim(s[start.value + 1..end.value])
      else ""
  }

  function NormaliseSigns(inner: string): string {
    Replace(Replace(inner, " - ", " + -"), "- ", "+ -")
  }

  function MemoryTerms(text: string): seq<string> {
    TrimmedPieces(SplitOn(NormaliseSigns(BracketContents(StripSizePrefix(Trim(text)))), '+'))
  }

  predicate HasChar(s: string, c: char) {
    !Lacks(s, c)
  }

  /** The components collected so far while walking the terms of a memory operand. */
  datatype MemParts = MemParts(base: Option<VarId>, index: Option<VarId>, scale: byte, disp: int64) {
    function AddDisp(imm: Option<int64>): MemParts {
      if imm.Some? then this.(disp := AsInt64(disp + imm.value)) else this
    }

    function ToOperand(): Operand {
      Mem(base, index, scale, disp)
    }
  }

  const NO_PARTS := MemParts(None, None, 1, 0)

  function AddScaledTerm(term: string, versions: Versions, parts: MemParts): MemParts {
    var factors := SplitOn(term, '*');
    if |factors| != 2 then parts
    else
      var a, b := Trim(factors[0]), Trim(factors[1]);
      var regPart, scalePart := if ParseRegister(a).Some? then a else b, if ParseRegister(a).Some? then b else a;
      var reg := ParseRegister(regPart);
      if reg.Some? then
        parts.(index := Some(CurrentVar(versions, reg.value)),
               scale := ParseImmediate(scalePart).GetOr(1) % 256)
      else parts.AddDisp(ParseImmediate(term))
  }

  function AddTerm(term: string, versions: Versions, parts: MemParts): MemParts {
    if HasChar(term, '*') then AddScaledTerm(term, versions, parts)
    else
      var reg := ParseRegister(TrimStartChar(term, '-'));
      if reg.Some? then
        var v := CurrentVar(versions, reg.value);
        if parts.base.None? then parts.(base := Some(v))
        else if parts.index.None? then parts.(index := Some(v))
        else parts
      else parts.AddDisp(ParseImmediate(term))
  }

  function AddTerms(terms: seq<string>, versions: Versions, parts: MemParts): MemParts {
    if terms == [] then parts else AddTerms(terms[1..], versions, AddTerm(terms[0], versions, parts))
  }

  function ParseMemoryOperandSpec(text: string, versions: Versions): Operand {
    AddTerms(MemoryTerms(text), versions, NO_PARTS).ToOperand()
  }

  method ParseMemoryOperand(text: string, versions: Versions) returns (op: Operand)
    ensures op == ParseMemoryOperandSpec(text, versions)
  {
    var terms := MemoryTerms(text);
    var parts := NO_PARTS;
    for i := 0 to |terms|
      invariant AddTerms(terms[i..], versions, parts) == AddTerms(terms, versions, NO_PARTS)
    {
      assert terms[i..][0] == terms[i] && terms[i..][1..] == terms[i + 1..];
      parts := AddTerm(terms[i], versions, parts);
    }
    op := parts.ToOperand();
  }

  predicate IsMemoryOperand(s: string) {
    HasChar(s, '[')
  }

  function ParseSingleOperand(text: string, versions: Versions): Operand {
    var s := Trim(text);
    if IsMemoryOperand(s) then ParseMemoryOperandSpec(s, versions)
    else
      var reg := ParseRegister(s);
      if reg.Some? then Var(CurrentVar(versions, reg.value))
      else Imm(ParseImmediate(s).GetOr(0))
  }

  function DstRegister(s: string): Option<VarBase> {
    ParseRegister(StripSizePrefix(Trim(s)))
  }

  // Splitting inverts joining.

  /** The bracket depth after reading s from depth d, or None when a ']' closes nothing. */
  function DepthAfter(s: string, d: nat): Option<nat> {
    if s == "" then Some(d)
    else if s[0] == '[' then DepthAfter(s[1..], d + 1)
    else if s[0] == ']' then if d == 0 then None else DepthAfter(s[1..], d - 1)
    else if s[0] == ',' && d == 0 then None
    else DepthAfter(s[1..], d)
  }

  /** Trimmed, non-empty, bracket-balanced and without a comma outside brackets. */
  predicate WellFormedOperand(s: string) {
    Clean(s) && DepthAfter(s, 0) == Some(0)
  }

  lemma {:induction false} ScanPiece(a: string, rest: string, current: string, d: nat)
    requires DepthAfter(a, d).Some?
    ensures ScanOperands(a + rest, current, d) == ScanOperands(rest, current + a, DepthAfter(a, d).value)
  {
    if a == "" {
      assert a + rest == rest && current + a == current;
    } else {
      var s := a + rest;
      assert s[0] == a[0] && s[1..] == a[1..] + rest;
      assert current + [a[0]] + a[1..] == current + a;
      var d' := if a[0] == '[' then d + 1 else if a[0] == ']' then d - 1 else d;
      ScanPiece(a[1..], rest, current + [a[0]], d');
    }
  }

  lemma ScanSeparator(rest: string, current: string)
    ensures ScanOperands(", " + rest, current, 0) == Emitted(current) + ScanOperands(rest, " ", 0)
  {
    var s := ", " + rest;
    var t := " " + rest;
    assert s[1..] == t && t[1..] == rest && "" + [t[0]] == " ";
    assert ScanOperands(t, "", 0) == ScanOperands(rest, " ", 0);
  }

  lemma {:induction false} ScanJoined(ops: seq<string>, pad: string)
    requires forall i :: 0 <= i < |ops| ==> WellFormedOperand(ops[i])
    requires pad == "" || pad == " "
    ensures ScanOperands(Join(ops, ", "), pad, 0) == ops
  {
    if ops == [] {
      assert Trim(pad) == "";
    } else {
      var a := ops[0];
      assert Emitted(pad + a) == [a] by {
        TrimPadded(a);
        assert pad == "" ==> pad + a == a;
      }
      if |ops| == 1 {
        ScanPiece(a, "", pad, 0);
        assert a + "" == a;
      } else {
        var rest := Join(ops[1..], ", ");
        ScanPiece(a, ", " + rest, pad, 0);
        assert a + (", " + rest) == Join(ops, ", ");
        ScanSeparator(rest, pad + a);
        ScanJoined(ops[1..], " ");
      }
    }
  }

  lemma {:induction false} JoinEnds(ops: seq<string>)
    requires ops != [] && forall i :: 0 <= i < |ops| ==> WellFormedOperand(ops[i])
    ensures Clean(Join(ops, ", "))
  {
    if |ops| > 1 {
      JoinEnds(ops[1..]);
      var s, t := Join(ops, ", "), Join(ops[1..], ", ");
      assert s[0] == ops[0][0] && s[|s| - 1] == t[|t| - 1];
    }
  }

  /** `parse_operands` of a list joined by ", " gives the list back. */
  lemma SplitInvertsJoin(ops: seq<string>)
    requires forall i :: 0 <= i < |ops| ==> WellFormedOperand(ops[i])
    ensures ParseOperandsSpec(Join(ops, ", ")) == ops
  {
    ScanJoined(ops, "");
    if ops != [] {
      JoinEnds(ops);
      TrimPadded(Join(ops, ", "));
    }
  }
}
