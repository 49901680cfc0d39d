/** The instruction set and the two tables the verifier keeps about it. */
module Opcodes {

  datatype Reg = PRI | ALT

  /** The instructions without operands that touch nothing but the two registers. */
  datatype RegOp =
    MovePri | MoveAlt | Xchg | Idxaddr | Shl | Shr | Sshr | Smul | Sdiv | SdivAlt | Umul | Udiv | UdivAlt
    | Add | Sub | SubAlt | And | Or | Xor | Not | Neg | Invert | ZeroPri | ZeroAlt | SignPri | SignAlt | Eq
    | Neq | Less | Leq | Grtr | Geq | Sless | Sleq | Sgrtr | Sgeq | IncPri | IncAlt | DecPri | DecAlt

  /** The same with one constant operand. */
  datatype RegConstOp =
    ConstPri | ConstAlt | IdxaddrB | AlignPri | AlignAlt | ShlCPri | ShlCAlt | ShrCPri | ShrCAlt | AddC
    | SmulC | EqCPri | EqCAlt

  datatype Condition =
    Jzer | Jnz | Jeq | Jneq | Jless | Jleq | Jgrtr | Jgeq | Jsless | Jsleq | Jsgrtr | Jsgeq

  /** The opcodes. Those that differ only in a register, a comparison, a count or a sign share a constructor;
      `PUSH(n)` stands for PUSH and PUSH2 to PUSH5, `STEP(1)` for INC and `STEP(-1)` for DEC, DEBUG_INFO for
      the obsolete LINE, SRANGE and SYMTAG. */
  datatype Opcode =
    NONE | LOAD(r: Reg) | LOAD_S(r: Reg) | LREF(r: Reg) | LREF_S(r: Reg) | LOAD_I | LODB_I
    | REG_C(g: RegConstOp) | ADDR(r: Reg) | STOR(r: Reg) | STOR_S(r: Reg) | SREF(r: Reg) | SREF_S(r: Reg)
    | STOR_I | STRB_I | LIDX | LIDX_B | REG(f: RegOp) | LCTRL | SCTRL | PUSH_REG(r: Reg) | PUSH_R
    | PUSH_C(n: nat) | PUSH(n: nat) | PUSH_S(n: nat) | POP(r: Reg) | STACK | HEAP | PROC | RET | RETN | CALL
    | CALL_PRI | JUMP | JREL | JCC(c: Condition) | ZERO | ZERO_S | STEP(delta: int) | STEP_S(delta: int)
    | STEP_I(delta: int) | MOVS | CMPS | FILL | HALT | BOUNDS | SYSREQ_PRI | SYSREQ_C | FILE | DEBUG_INFO
    | SYMBOL | JUMP_PRI | SWITCH | CASETBL | SWAP(r: Reg) | PUSH_ADR(n: nat) | NOP | SYSREQ_N | BREAK
    | LOAD_BOTH | LOAD_S_BOTH | CONST | CONST_S | SYSREQ_D | SYSREQ_ND

  /** The opcode with number `n`; every other cell value decodes to NONE, which has no valid handler. */
  function OpcodeOf(n: int): Opcode {
    match n
    case 0 => NONE
    case 1 => LOAD(PRI)
    case 2 => LOAD(ALT)
    case 3 => LOAD_S(PRI)
    case 4 => LOAD_S(ALT)
    case 5 => LREF(PRI)
    case 6 => LREF(ALT)
    case 7 => LREF_S(PRI)
    case 8 => LREF_S(ALT)
    case 9 => LOAD_I
    case 10 => LODB_I
    case 11 => REG_C(ConstPri)
    case 12 => REG_C(ConstAlt)
    case 13 => ADDR(PRI)
    case 14 => ADDR(ALT)
    case 15 => STOR(PRI)
    case 16 => STOR(ALT)
    case 17 => STOR_S(PRI)
    case 18 => STOR_S(ALT)
    case 19 => SREF(PRI)
    case 20 => SREF(ALT)
    case 21 => SREF_S(PRI)
    case 22 => SREF_S(ALT)
    case 23 => STOR_I
    case 24 => STRB_I
    case 25 => LIDX
    case 26 => LIDX_B
    case 27 => REG(Idxaddr)
    case 28 => REG_C(IdxaddrB)
    case 29 => REG_C(AlignPri)
    case 30 => REG_C(AlignAlt)
    case 31 => LCTRL
    case 32 => SCTRL
    case 33 => REG(MovePri)
    case 34 => REG(MoveAlt)
    case 35 => REG(Xchg)
    case 36 => PUSH_REG(PRI)
    case 37 => PUSH_REG(ALT)
    case 38 => PUSH_R
    case 39 => PUSH_C(1)
    case 40 => PUSH(1)
    case 41 => PUSH_S(1)
    case 42 => POP(PRI)
    case 43 => POP(ALT)
    case 44 => STACK
    case 45 => HEAP
    case 46 => PROC
    case 47 => RET
    case 48 => RETN
    case 49 => CALL
    case 50 => CALL_PRI
    case 51 => JUMP
    case 52 => JREL
    case 53 => JCC(Jzer)
    case 54 => JCC(Jnz)
    case 55 => JCC(Jeq)
    case 56 => JCC(Jneq)
    case 57 => JCC(Jless)
    case 58 => JCC(Jleq)
    case 59 => JCC(Jgrtr)
    case 60 => JCC(Jgeq)
    case 61 => JCC(Jsless)
    case 62 => JCC(Jsleq)
    case 63 => JCC(Jsgrtr)
    case 64 => JCC(Jsgeq)
    case 65 => REG(Shl)
    case 66 => REG(Shr)
    case 67 => REG(Sshr)
    case 68 => REG_C(ShlCPri)
    case 69 => REG_C(ShlCAlt)
    case 70 => REG_C(ShrCPri)
    case 71 => REG_C(ShrCAlt)
    case 72 => REG(Smul)
    case 73 => REG(Sdiv)
    case 74 => REG(SdivAlt)
    case 75 => REG(Umul)
    case 76 => REG(Udiv)
    case 77 => REG(UdivAlt)
    case 78 => REG(Add)
    case 79 => REG(Sub)
    case 80 => REG(SubAlt)
    case 81 => REG(And)
    case 82 => REG(Or)
    case 83 => REG(Xor)
    case 84 => REG(Not)
    case 85 => REG(Neg)
    case 86 => REG(Invert)
    case 87 => REG_C(AddC)
    case 88 => REG_C(SmulC)
    case 89 => REG(ZeroPri)
    case 90 => REG(ZeroAlt)
    case 91 => ZERO
    case 92 => ZERO_S
    case 93 => REG(SignPri)
    case 94 => REG(SignAlt)
    case 95 => REG(Eq)
    case 96 => REG(Neq)
    case 97 => REG(Less)
    case 98 => REG(Leq)
    case 99 => REG(Grtr)
    case 100 => REG(Geq)
    case 101 => REG(Sless)
    case 102 => REG(Sleq)
    case 103 => REG(Sgrtr)
    case 104 => REG(Sgeq)
    case 105 => REG_C(EqCPri)
    case 106 => REG_C(EqCAlt)
    case 107 => REG(IncPri)
    case 108 => REG(IncAlt)
    case 109 => STEP(1)
    case 110 => STEP_S(1)
    case 111 => STEP_I(1)
    case 112 => REG(DecPri)
    case 113 => REG(DecAlt)
    case 114 => STEP(-1)
    case 115 => STEP_S(-1)
    case 116 => STEP_I(-1)
    case 117 => MOVS
    case 118 => CMPS
    case 119 => FILL
    case 120 => HALT
    case 121 => BOUNDS
    case 122 => SYSREQ_PRI
    case 123 => SYSREQ_C
    case 124 => FILE
    case 125 => DEBUG_INFO
    case 126 => SYMBOL
    case 127 => DEBUG_INFO
    case 128 => JUMP_PRI
    case 129 => SWITCH
    case 130 => CASETBL
    case 131 => SWAP(PRI)
    case 132 => SWAP(ALT)
    case 133 => PUSH_ADR(1)
    case 134 => NOP
    case 135 => SYSREQ_N
    case 136 => DEBUG_INFO
    case 137 => BREAK
    case 138 => PUSH_C(2)
    case 139 => PUSH(2)
    case 140 => PUSH_S(2)
    case 141 => PUSH_ADR(2)
    case 142 => PUSH_C(3)
    case 143 => PUSH(3)
    case 144 => PUSH_S(3)
    case 145 => PUSH_ADR(3)
    case 146 => PUSH_C(4)
    case 147 => PUSH(4)
    case 148 => PUSH_S(4)
    case 149 => PUSH_ADR(4)
    case 150 => PUSH_C(5)
    case 151 => PUSH(5)
    case 152 => PUSH_S(5)
    case 153 => PUSH_ADR(5)
    case 154 => LOAD_BOTH
    case 155 => LOAD_S_BOTH
    case 156 => CONST
    case 157 => CONST_S
    case 158 => SYSREQ_D
    case 159 => SYSREQ_ND
    case _ => NONE
  }

  /** The operand handlers of the second pass: what each does with the cells behind the opcode. */
  datatype Handler =
    | Invalid
    | Numbers(count: nat)
    | CodeOffs
    | DataOffs(count: nat)
    | DataOffsNumber
    | ByteWidth
    | LctrlId
    | SctrlId
    | StackHeap
    | Relative
    | Sysreq
    | TableOffs
    | CaseTable

  /** The `handlers` table. */
  function HandlerOf(op: Opcode): Handler {
    match op
    case NONE | FILE | DEBUG_INFO | SYMBOL | SYSREQ_D | SYSREQ_ND => Invalid
    case LOAD(_) | LREF(_) | STOR(_) | SREF(_) | ZERO | STEP(_) => DataOffs(1)
    case LOAD_S(_) | LREF_S(_) | REG_C(_) | ADDR(_) | STOR_S(_) | SREF_S(_) | LIDX_B | PUSH_R | ZERO_S |
      STEP_S(_) | MOVS | CMPS | FILL | HALT | BOUNDS => Numbers(1)
    case LOAD_I | STOR_I | LIDX | REG(_) | PUSH_REG(_) | POP(_) | PROC | RET | RETN | CALL_PRI | STEP_I(_) |
      SYSREQ_PRI | JUMP_PRI | SWAP(_) | NOP | BREAK => Numbers(0)
    case LODB_I | STRB_I => ByteWidth
    case LCTRL => LctrlId
    case SCTRL => SctrlId
    case PUSH_C(n) => Numbers(n)
    case PUSH_S(n) => Numbers(n)
    case PUSH_ADR(n) => Numbers(n)
    case PUSH(n) => DataOffs(n)
    case STACK | HEAP => StackHeap
    case CALL | JUMP | JCC(_) => CodeOffs
    case JREL => Relative
    case SYSREQ_C | SYSREQ_N => Sysreq
    case SWITCH => TableOffs
    case CASETBL => CaseTable
    case LOAD_BOTH => DataOffs(2)
    case LOAD_S_BOTH | CONST_S => Numbers(2)
    case CONST => DataOffsNumber
  }

  /** An entry of the `opcode_sizes` table: a size in cells, or one of the two markers. */
  datatype OpcodeSize = Fixed(cells: nat) | NoSize | TableSized

  /** The `opcode_sizes` table. */
  function SizeOf(op: Opcode): OpcodeSize {
    match op
    case NONE | FILE | DEBUG_INFO | SYMBOL | SYSREQ_D | SYSREQ_ND => NoSize
    case LOAD(_) | LOAD_S(_) | LREF(_) | LREF_S(_) | LODB_I | REG_C(_) | ADDR(_) | STOR(_) | STOR_S(_) | SREF(_) |
      SREF_S(_) | STRB_I | LIDX_B | LCTRL | SCTRL | PUSH_R | STACK | HEAP | CALL | JUMP | JREL | JCC(_) |
      ZERO | ZERO_S | STEP(_) | STEP_S(_) | MOVS | CMPS | FILL | HALT | BOUNDS | SYSREQ_C | SWITCH => Fixed(2)
    case LOAD_I | STOR_I | LIDX | REG(_) | PUSH_REG(_) | POP(_) | PROC | RET | RETN | CALL_PRI | STEP_I(_) |
      SYSREQ_PRI | JUMP_PRI | SWAP(_) | NOP | BREAK => Fixed(1)
    case PUSH_C(n) => Fixed(1 + n)
    case PUSH(n) => Fixed(1 + n)
    case PUSH_S(n) => Fixed(1 + n)
    case PUSH_ADR(n) => Fixed(1 + n)
    case CASETBL => TableSized
    case SYSREQ_N | LOAD_BOTH | LOAD_S_BOTH | CONST | CONST_S => Fixed(3)
  }

  /** The number of operands a handler of fixed size returns for `op`. */
  function OperandCount(op: Opcode): nat {
    match HandlerOf(op)
    case Invalid => 0
    case Numbers(n) => n
    case DataOffs(n) => n
    case DataOffsNumber => 2
    case Sysreq => if op.SYSREQ_C? then 1 else 2
    case CaseTable => 0
    case CodeOffs | ByteWidth | LctrlId | SctrlId | StackHeap | Relative | TableOffs => 1
  }

  /** The two tables agree on what is no instruction and on what is a case table ... */
  lemma TablesAgreeOnKinds(op: Opcode)
    ensures SizeOf(op).NoSize? <==> HandlerOf(op).Invalid?
    ensures SizeOf(op).TableSized? <==> op.CASETBL?
  {
  }

  lemma CaseTablesHaveTheirHandler(op: Opcode)
    ensures HandlerOf(op).CaseTable? <==> op.CASETBL?
  {
  }

  /** ... and otherwise make both passes step over the same number of cells. */
  lemma TablesAgreeOnSizes(op: Opcode)
    ensures SizeOf(op).Fixed? ==> SizeOf(op).cells == 1 + OperandCount(op)
  {
  }
}
