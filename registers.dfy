/** The MAX17050 as the driver sees it: a file of 16-bit registers behind a
    two-wire bus whose transactions may fail, and the integer helpers that the
    register decoders share. */
module Registers {

  /** One byte of a two-byte register transfer. */
  type Byte = x: int | 0 <= x < 0x100

  /** One 16-bit register word (C `u16`). */
  type Word = x: int | 0 <= x < 0x1_0000

  /** data[0] of a two-byte transfer: the low byte. */
  function Lo(w: Word): Byte { w % 0x100 }

  /** data[1] of a two-byte transfer: the high byte. */
  function Hi(w: Word): Byte { w / 0x100 }

  /** `(data[1] << 8) | data[0]`: how every read assembles its word. */
  function MakeWord(hi: Byte, lo: Byte): Word { hi * 0x100 + lo }

  /** Splitting a word into its transfer bytes and assembling them again are inverse. */
  lemma WordBytesRoundTrip(w: Word, hi: Byte, lo: Byte)
    ensures MakeWord(Hi(w), Lo(w)) == w
    ensures Hi(MakeWord(hi, lo)) == hi && Lo(MakeWord(hi, lo)) == lo
  {
  }

  /** A C conversion to `u16`: the value modulo 2^16. */
  function ToU16(x: int): (w: Word)
    ensures 0 <= x < 0x1_0000 ==> w == x
    ensures x == -1 ==> w == 0xFFFF
  {
    x % 0x1_0000
  }

  function Abs(x: int): nat { if x < 0 then -x else x }

  function Min(a: int, b: int): int { if a <= b then a else b }

  function Max(a: int, b: int): int { if a >= b then a else b }

  /** C's `/` on `int`: the quotient truncated toward zero (Dafny's own `/`
      is Euclidean and differs for a negative dividend). */
  function CDiv(a: int, b: int): int
    requires b != 0
  {
    if a >= 0 then (if b > 0 then a / b else -(a / -b))
    else (if b > 0 then -((-a) / b) else (-a) / (-b))
  }

  /** Truncating division by a positive constant is monotone in the dividend. */
  lemma CDivMonotone(a: int, b: int, d: int)
    requires a <= b && d > 0
    ensures CDiv(a, d) <= CDiv(b, d)
  {
    if a < 0 && b >= 0 {
      DivMonotone(0, -a, d);
      DivMonotone(0, b, d);
    } else if a < 0 {
      assert (-b) / d <= (-a) / d by { DivMonotone(-b, -a, d); }
    } else {
      DivMonotone(a, b, d);
    }
  }

  lemma DivMonotone(a: nat, b: nat, d: int)
    requires a <= b && d > 0
    ensures a / d <= b / d
  {
    assert (a / d) * d <= a;
    assert b < (b / d + 1) * d;
    MulCancel(a / d, b / d + 1, d);
  }

  lemma MulCancel(x: int, y: int, d: int)
    requires d > 0 && x * d < y * d
    ensures x < y
  {
  }

  lemma MulMonotone(x: int, y: int, d: int)
    requires x <= y && d >= 0
    ensures x * d <= y * d
  {
    var k := y - x;
    assert y * d == x * d + k * d;
  }

  /** Quotient and remainder are determined by `a == q * d + r`, `0 <= r < d`. */
  lemma DivModUnique(a: int, d: int, q: int, r: int)
    requires d > 0 && 0 <= r < d && a == q * d + r
    ensures a / d == q && a % d == r
  {
    var q0, r0 := a / d, a % d;
    if q > q0 {
      MulMonotone(q0 + 1, q, d);
      assert false;
    } else if q < q0 {
      MulMonotone(q + 1, q0, d);
      assert false;
    }
  }

  /** The registers of the chip that the driver touches. The register map
      header is not part of this model, so registers are named, not numbered. */
  datatype Reg =
    | Status | VAlrtThreshold | TAlrtThreshold | SAlrtThreshold | AtRate
    | RemCapRep | SocRep | Temperature | VCell | Current | AvgCurrent
    | FullSocThr | SocMix | SocAv | RemCapMix | FullCap | AvrTemperature
    | Cycles | DesignCap | AvrVCell | Config | IChgTerm | RemCapAv
    | FullCapNom | MiscCfg | DQAcc | DPAcc | VfOcv | VfSoc

  /** What happened on the bus, in order: a read, a write, or a delay. */
  datatype Event = Rd(reg: Reg) | Wr(reg: Reg, word: Word) | Sleep(ms: nat)

  /** The word register `r` holds; a register never written holds 0. */
  function Value(regs: map<Reg, Word>, r: Reg): Word
  {
    if r in regs then regs[r] else 0
  }

  /** What `fg_read_register` returns: the word, or -1 when the read fails. */
  function ReadResult(regs: map<Reg, Word>, readFaults: set<Reg>, r: Reg): (v: int)
    ensures v == -1 <==> r in readFaults
    ensures v != -1 ==> v == Value(regs, r)
  {
    if r in readFaults then -1 else Value(regs, r)
  }

  /** The register file after an attempted write, which takes effect unless
      the write fails. */
  function Put(regs: map<Reg, Word>, writeFaults: set<Reg>, r: Reg, w: Word): map<Reg, Word>
  {
    if r in writeFaults then regs else regs[r := w]
  }

  /** Writing the same word twice leaves what writing it once leaves. */
  lemma PutIdempotent(regs: map<Reg, Word>, writeFaults: set<Reg>, r: Reg, w: Word)
    ensures Put(Put(regs, writeFaults, r, w), writeFaults, r, w) == Put(regs, writeFaults, r, w)
    ensures r !in writeFaults ==> Value(Put(regs, writeFaults, r, w), r) == w
  {
  }

  /** Appending to a trace piece by piece is appending the pieces joined. */
  lemma Appended(t: seq<Event>, e: seq<Event>, x: seq<Event>)
    ensures t + e + x == t + (e + x)
  {
  }

  /** The bus capability the driver is written against (SMBus block read and
      write of two bytes). Which registers fail to read or write is part of
      the bus state and stays fixed during every driver operation. */
  class Bus {
    var regs: map<Reg, Word>
    var readFaults: set<Reg>
    var writeFaults: set<Reg>
    var trace: seq<Event>

    constructor (regs0: map<Reg, Word>, readFaults0: set<Reg>, writeFaults0: set<Reg>)
      ensures regs == regs0 && readFaults == readFaults0 && writeFaults == writeFaults0
      ensures trace == []
    {
      regs, readFaults, writeFaults := regs0, readFaults0, writeFaults0;
      trace := [];
    }

    /** `fg_read_register`: the word, or -1 on an I/O failure. */
    method Read(r: Reg) returns (v: int)
      modifies this`trace
      ensures v == ReadResult(regs, readFaults, r)
      ensures trace == old(trace) + [Rd(r)]
    {
      v := ReadResult(regs, readFaults, r);
      trace := trace + [Rd(r)];
    }

    /** `fg_write_register`: 0 on success, -1 on an I/O failure. */
    method Write(r: Reg, w: Word) returns (status: int)
      modifies this`regs, this`trace
      ensures regs == Put(old(regs), writeFaults, r, w)
      ensures status == (if r in writeFaults then -1 else 0)
      ensures trace == old(trace) + [Wr(r, w)]
    {
      status := if r in writeFaults then -1 else 0;
      regs := Put(regs, writeFaults, r, w);
      trace := trace + [Wr(r, w)];
    }

    /** `msleep(ms)`: only its place in the order of operations is kept. */
    method Delay(ms: nat)
      modifies this`trace
      ensures trace == old(trace) + [Sleep(ms)]
    {
      trace := trace + [Sleep(ms)];
    }
  }
}
