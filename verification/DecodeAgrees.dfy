/** The instruction switch gives the same result over both packages' arithmetic. */
module DecodeAgrees {
  import opened Words
  import opened Yul64
  import opened Cpu

  lemma FieldsAgree(instr: u64)
    ensures ParseOpcode(Wide, instr) == ParseOpcode(Native, instr)
    ensures ParseRd(Wide, instr) == ParseRd(Native, instr)
    ensures ParseFunct3(Wide, instr) == ParseFunct3(Native, instr)
    ensures ParseRs1(Wide, instr) == ParseRs1(Native, instr)
    ensures ParseRs2(Wide, instr) == ParseRs2(Native, instr)
    ensures ParseFunct7(Wide, instr) == ParseFunct7(Native, instr)
  {
  }

  lemma ImmediatesAgree(instr: u64)
    ensures ParseImmTypeI(Wide, instr) == ParseImmTypeI(Native, instr)
    ensures ParseImmTypeS(Wide, instr) == ParseImmTypeS(Native, instr)
    ensures ParseImmTypeB(Wide, instr) == ParseImmTypeB(Native, instr)
    ensures ParseImmTypeU(Wide, instr) == ParseImmTypeU(Native, instr)
    ensures ParseImmTypeJ(Wide, instr) == ParseImmTypeJ(Native, instr)
  {
  }

  lemma ImmediateAluAgrees(funct3: u64, x: u64, y: u64)
    ensures AluImm(Wide, funct3, x, y) == AluImm(Native, funct3, x, y)
    ensures AluImm32(Wide, funct3, x, y) == AluImm32(Native, funct3, x, y)
    ensures BranchHit(Wide, funct3, x, y) == BranchHit(Native, funct3, x, y)
  {
  }

  lemma RegisterAluAgrees(funct3: u64, funct7: u64, x: u64, y: u64)
    ensures AluReg(Wide, funct3, funct7, x, y) == AluReg(Native, funct3, funct7, x, y)
    ensures AluReg32(Wide, funct3, funct7, x, y) == AluReg32(Native, funct3, funct7, x, y)
  {
  }

  lemma AtomicValueAgrees(op: u64, v: u64, value: u64)
    requires KnownAtomic(op)
    ensures AtomicValue(Wide, op, v, value) == AtomicValue(Native, op, v, value)
  {
  }

  lemma SysCallAgrees(c: Cpu)
    ensures SysCall(Wide, c) == SysCall(Native, c)
  {
  }

  lemma MemoryAgrees(c: Cpu, instr: u64)
    ensures DecodeLoad(Wide, c, instr) == DecodeLoad(Native, c, instr)
    ensures DecodeStore(Wide, c, instr) == DecodeStore(Native, c, instr)
  {
    hide ParseOpcode, ParseFunct3, ParseFunct7, ParseRd, ParseRs1, ParseRs2, ParseImmTypeI, ParseImmTypeS;
    FieldsAgree(instr);
    assert ParseImmTypeI(Wide, instr) == ParseImmTypeI(Native, instr) && ParseImmTypeS(Wide, instr) == ParseImmTypeS(Native, instr) by {
      ImmediatesAgree(instr);
    }
  }

  lemma AtomicAgrees(c: Cpu, instr: u64)
    ensures DecodeAtomic(Wide, c, instr) == DecodeAtomic(Native, c, instr)
  {
    hide ParseOpcode, ParseFunct3, ParseFunct7, ParseRd, ParseRs1, ParseRs2;
    FieldsAgree(instr);
  }

  lemma JumpsAgree(c: Cpu, instr: u64)
    ensures DecodeBranch(Wide, c, instr) == DecodeBranch(Native, c, instr)
    ensures DecodeJal(Wide, c, instr) == DecodeJal(Native, c, instr)
    ensures DecodeJalr(Wide, c, instr) == DecodeJalr(Native, c, instr)
  {
    hide BranchHit, ParseFunct3, ParseRd, ParseRs1, ParseRs2, ParseImmTypeB, ParseImmTypeI, ParseImmTypeJ;
    FieldsAgree(instr);
    ImmediatesAgree(instr);
    ImmediateAluAgrees(ParseFunct3(Native, instr), GetRegister(c, ParseRs1(Native, instr)), GetRegister(c, ParseRs2(Native, instr)));
  }

  lemma OthersAgree(c: Cpu, instr: u64)
    ensures DecodeUpper(Wide, c, instr) == DecodeUpper(Native, c, instr)
    ensures DecodeSystem(Wide, c, instr) == DecodeSystem(Native, c, instr)
  {
    hide SysCall, ParseOpcode, ParseFunct3, ParseRd, ParseImmTypeU;
    FieldsAgree(instr);
    assert ParseImmTypeU(Wide, instr) == ParseImmTypeU(Native, instr) by {
      ImmediatesAgree(instr);
    }
    SysCallAgrees(c);
  }

  lemma OpcodeAluAgrees(c: Cpu, instr: u64)
    ensures DecodeAlu(Wide, c, instr) == DecodeAlu(Native, c, instr)
  {
    hide AluImm, AluImm32, AluReg, AluReg32, ParseOpcode, ParseFunct3, ParseFunct7, ParseRd, ParseRs1, ParseRs2, ParseImmTypeI;
    FieldsAgree(instr);
    assert ParseImmTypeI(Wide, instr) == ParseImmTypeI(Native, instr) by {
      ImmediatesAgree(instr);
    }
    var funct3, funct7 := ParseFunct3(Native, instr), ParseFunct7(Native, instr);
    var x := GetRegister(c, ParseRs1(Native, instr));
    RegisterAluAgrees(funct3, funct7, x, GetRegister(c, ParseRs2(Native, instr)));
    ImmediateAluAgrees(funct3, x, ParseImmTypeI(Native, instr));
  }

  /** One instruction means the same to both VMs, whatever the instruction word and the registers. */
  lemma DecodeAgrees(c: Cpu, instr: u64)
    ensures Decode(Wide, c, instr) == Decode(Native, c, instr)
  {
    hide DecodeLoad, DecodeStore, DecodeBranch, DecodeAlu, DecodeUpper, DecodeJal, DecodeJalr, DecodeSystem, DecodeAtomic;
    hide ParseOpcode;
    FieldsAgree(instr);
    MemoryAgrees(c, instr);
    AtomicAgrees(c, instr);
    JumpsAgree(c, instr);
    OthersAgree(c, instr);
    OpcodeAluAgrees(c, instr);
  }
}
