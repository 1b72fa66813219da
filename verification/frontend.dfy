/**
 * The timing arithmetic of the HDMI receiver front end: the frame totals
 * and the TMDS clock that `HdmiFrontEnd`'s initialiser and the free
 * functions `compute_tmds_clock` and `compute_vertical_freq` derive from
 * the "hdmi" register bank.
 */
module FrontEnd {
  import opened Results
  import opened Bits
  import opened RegMaps

  /** `MHZ_FRAC`: the TMDS frequency register holds 1/128 MHz steps. */
  const MhzFrac: real := 128.0

  /** The registers the initialiser reads, after its masks and halvings. */
  datatype Timing = Timing(
    width: int, hsyncfp: int, hsyncdura: int, hsyncbp: int,
    height: int, vsyncfp: int, vsyncdura: int, vsyncbp: int,
    freqReg: int)

  /** The registers that both the initialiser and `compute_vertical_freq` sum, in their order of reads. */
  const TotalsReads: seq<int> := [0x7, 0x20, 0x22, 0x24, 0x9, 0x2A, 0x2E, 0x32]

  /** The initialiser's reads: the totals' registers, then the TMDS frequency register. */
  const InitReads: seq<int> := TotalsReads + [0x51]

  /** `read16` of each offset, in order. */
  function Reads(reg: RegMap, offsets: seq<int>): (rs: seq<Result<int, ReadError>>)
    ensures |rs| == |offsets|
    ensures forall k :: 0 <= k < |offsets| ==> rs[k] == reg.Read16(offsets[k])
  {
    seq(|offsets|, k requires 0 <= k < |offsets| => reg.Read16(offsets[k]))
  }

  /**
   * Reads done one after another: the values, or the exception of the first
   * read that throws. The reads have no effect, so taking them all and
   * keeping the first failure is the same as stopping at it.
   */
  function Sequence(rs: seq<Result<int, ReadError>>): (r: Result<seq<int>, ReadError>)
    ensures r.Ok? ==> |r.value| == |rs|
    decreases |rs|
  {
    if |rs| == 0 then Ok([])
    else
      var v :- rs[0];
      var rest :- Sequence(rs[1..]);
      Ok([v] + rest)
  }

  /** The reads of `HdmiFrontEnd`'s initialiser, then its masks and halvings. */
  function Decode(reg: RegMap): Result<Timing, ReadError>
  {
    var v :- Sequence(Reads(reg, InitReads));
    Ok(Timing(BitAnd(v[0], 0x1FFF), v[1], v[2], v[3],
              BitAnd(v[4], 0x1FFF), v[5] / 2, v[6] / 2, v[7] / 2, v[8]))
  }

  function TotalWidth(t: Timing): int
  {
    t.width + t.hsyncfp + t.hsyncdura + t.hsyncbp
  }

  function TotalHeight(t: Timing): int
  {
    t.height + t.vsyncfp + t.vsyncdura + t.vsyncbp
  }

  /** `(freq_reg and 0xFF80) shr 7`: the whole megahertz. */
  function FreqWhole(freqReg: int): int
  {
    ShiftRight(BitAnd(freqReg, 0xFF80), 7)
  }

  /** `freq_reg and 0x007F`: the 1/128 MHz steps. */
  function FreqFrac(freqReg: int): int
  {
    BitAnd(freqReg, 0x7F)
  }

  /** `freq_whole + freq_frac / 128.0`: the TMDS clock in MHz. */
  function TmdsClock(freqReg: int): real
  {
    FreqWhole(freqReg) as real + FreqFrac(freqReg) as real / MhzFrac
  }

  /** Why `compute_tmds_clock` throws. */
  datatype ClockError =
    | NullMap                      // `map!!` on a missing bank
    | ReadFailed(cause: ReadError) // `read16(0x51)` past the end of the bank

  /** `compute_tmds_clock(bank)`. */
  function ComputeTmdsClock(bank: Option<RegMap>): Result<real, ClockError>
  {
    match bank
    case None => Err(NullMap)
    case Some(m) =>
      match m.Read16(0x51)
      case Err(e) => Err(ReadFailed(e))
      case Ok(freqReg) => Ok(TmdsClock(freqReg))
  }

  /** What `compute_vertical_freq` works out before it prints: the two totals and the clock. */
  datatype FrameTotals = FrameTotals(totalWidth: int, totalHeight: int, tmdsclk: real)

  /**
   * `compute_vertical_freq(bank)`: nothing for a missing bank; otherwise the
   * same reads as the initialiser, then `compute_tmds_clock`.
   */
  function ComputeVerticalFreq(bank: Option<RegMap>): Result<Option<FrameTotals>, ClockError>
  {
    match bank
    case None => Ok(None)
    case Some(m) =>
      match FreeTotals(m)
      case Err(e) => Err(ReadFailed(e))
      case Ok(totals) =>
        match ComputeTmdsClock(bank)
        case Err(e) => Err(e)
        case Ok(clock) => Ok(Some(FrameTotals(totals.0, totals.1, clock)))
  }

  /** The reads and sums at the top of `compute_vertical_freq`. */
  function FreeTotals(m: RegMap): Result<(int, int), ReadError>
  {
    var v :- Sequence(Reads(m, TotalsReads));
    var totalwidth := BitAnd(v[0], 0x1FFF) + v[1] + v[2] + v[3];
    var totalheight := BitAnd(v[4], 0x1FFF) + v[5] / 2 + v[6] / 2 + v[7] / 2;
    Ok((totalwidth, totalheight))
  }

  /** `HdmiFrontEnd`: the clock and the frame totals, computed once from the bank. */
  class HdmiFrontEnd {
    const reg: RegMap
    var tmdsclk: real
    var totalwidth: int
    var totalheight: int

    /**
     * The initialiser. The bank must hold every register it reads; on a
     * shorter bank the source throws, which `Decode` models.
     */
    constructor (reg: RegMap)
      requires 0x53 <= |reg.data|
      ensures this.reg == reg
      ensures Decode(reg).Ok?
      ensures totalwidth == TotalWidth(Decode(reg).value)
      ensures totalheight == TotalHeight(Decode(reg).value)
      ensures tmdsclk == TmdsClock(Decode(reg).value.freqReg)
    {
      this.reg := reg;
      DecodeValue(reg);
      var width := BitAnd(reg.Read16(0x7).value, 0x1FFF);
      var hsyncfp := reg.Read16(0x20).value;
      var hsyncdura := reg.Read16(0x22).value;
      var hsyncbp := reg.Read16(0x24).value;
      assert width + hsyncfp + hsyncdura + hsyncbp == TotalWidth(Decode(reg).value);
      totalwidth := width + hsyncfp + hsyncdura + hsyncbp;

      var height := BitAnd(reg.Read16(0x9).value, 0x1FFF);
      var vsyncfp := reg.Read16(0x2A).value / 2;
      var vsyncdura := reg.Read16(0x2E).value / 2;
      var vsyncbp := reg.Read16(0x32).value / 2;
      assert height + vsyncfp + vsyncdura + vsyncbp == TotalHeight(Decode(reg).value);
      totalheight := height + vsyncfp + vsyncdura + vsyncbp;

      var freqReg := reg.Read16(0x51).value;
      var freqWhole := ShiftRight(BitAnd(freqReg, 0xFF80), 7);
      var freqFrac := BitAnd(freqReg, 0x7F) as real / MhzFrac;
      assert freqWhole as real + freqFrac == TmdsClock(Decode(reg).value.freqReg);
      tmdsclk := freqWhole as real + freqFrac;
    }
  }

  /** The reads complete exactly when each one does, and then give each one's value. */
  lemma {:induction false} SequenceOk(rs: seq<Result<int, ReadError>>)
    ensures Sequence(rs).Ok? <==> forall k :: 0 <= k < |rs| ==> rs[k].Ok?
    ensures Sequence(rs).Ok? ==> forall k :: 0 <= k < |rs| ==> Sequence(rs).value[k] == rs[k].value
    decreases |rs|
  {
    if |rs| > 0 {
      SequenceOk(rs[1..]);
      assert forall k :: 1 <= k < |rs| ==> rs[k] == rs[1..][k - 1];
    }
  }

  /** The reads stop at the first one that throws, with its exception. */
  lemma {:induction false} SequenceFirstError(rs: seq<Result<int, ReadError>>, k: nat)
    requires k < |rs| && rs[k].Err?
    requires forall j :: 0 <= j < k ==> rs[j].Ok?
    ensures Sequence(rs) == Err(rs[k].error)
    decreases k
  {
    if k > 0 {
      SequenceFirstError(rs[1..], k - 1);
    }
  }

  /** Doing two runs of reads in turn is doing the one after the other. */
  lemma {:induction false} SequenceAppend(a: seq<Result<int, ReadError>>, b: seq<Result<int, ReadError>>)
    ensures Sequence(a).Err? ==> Sequence(a + b) == Sequence(a)
    ensures Sequence(a).Ok? && Sequence(b).Err? ==> Sequence(a + b) == Sequence(b)
    ensures Sequence(a).Ok? && Sequence(b).Ok? ==>
      Sequence(a + b) == Ok(Sequence(a).value + Sequence(b).value)
    decreases |a|
  {
    if |a| == 0 {
      assert a + b == b;
      if Sequence(b).Ok? {
        assert Sequence(a).value + Sequence(b).value == Sequence(b).value;
      }
    } else {
      var ab := a + b;
      assert ab[0] == a[0] && ab[1..] == a[1..] + b;
      SequenceAppend(a[1..], b);
      var rest := Sequence(a[1..]);
      if a[0].Err? {
        assert Sequence(ab) == Err(a[0].error);
      } else if rest.Err? {
        assert Sequence(ab) == Err(rest.error);
      } else if Sequence(b).Err? {
        assert Sequence(ab) == Err(Sequence(b).error);
      } else {
        var v, ra, rb := a[0].value, rest.value, Sequence(b).value;
        assert Sequence(ab) == Ok([v] + (ra + rb));
        assert [v] + (ra + rb) == ([v] + ra) + rb;
      }
    }
  }

  /** Reading two lists of offsets is reading the first, then the second. */
  lemma ReadsAppend(reg: RegMap, a: seq<int>, b: seq<int>)
    ensures Reads(reg, a + b) == Reads(reg, a) + Reads(reg, b)
  {
  }

  /** Every register the initialiser reads lies within its first 0x53 bytes, and 0x51 is the last. */
  lemma InitReadsBounds()
    ensures forall k :: 0 <= k < |InitReads| ==> 0 <= InitReads[k] <= 0x51
    ensures InitReads[|InitReads| - 1] == 0x51
  {
  }

  /** When the bank holds every register read, the reads give each register's `read16`, in order. */
  lemma ReadsValues(reg: RegMap, offsets: seq<int>)
    requires forall k :: 0 <= k < |offsets| ==> 0 <= offsets[k] && offsets[k] + 2 <= |reg.data|
    ensures Sequence(Reads(reg, offsets)).Ok?
    ensures forall k :: 0 <= k < |offsets| ==> Sequence(Reads(reg, offsets)).value[k] == reg.Read16(offsets[k]).value
  {
    SequenceOk(Reads(reg, offsets));
  }

  /** The initialiser completes exactly when the bank holds register 0x51, the last two bytes it reads. */
  lemma DecodeOkIff(reg: RegMap)
    ensures Decode(reg).Ok? <==> 0x53 <= |reg.data|
  {
    InitReadsBounds();
    var rs := Reads(reg, InitReads);
    SequenceOk(rs);
    if 0x53 > |reg.data| {
      assert rs[|rs| - 1].Err?;
    }
  }

  /**
   * On a short bank the initialiser throws for the first register, in its
   * order of reads, that lies past the end.
   */
  lemma DecodeFirstError(reg: RegMap, k: nat)
    requires k < |InitReads| && reg.Read16(InitReads[k]).Err?
    requires forall j :: 0 <= j < k ==> reg.Read16(InitReads[j]).Ok?
    ensures Decode(reg) == Err(OutOfRange(InitReads[k]))
  {
    SequenceFirstError(Reads(reg, InitReads), k);
  }

  /** On a bank that holds them all, the fields are the registers' values, masked and halved as the initialiser does. */
  lemma DecodeValue(reg: RegMap)
    requires 0x53 <= |reg.data|
    ensures Decode(reg) == Ok(Timing(
      BitAnd(reg.Read16(0x7).value, 0x1FFF), reg.Read16(0x20).value,
      reg.Read16(0x22).value, reg.Read16(0x24).value,
      BitAnd(reg.Read16(0x9).value, 0x1FFF), reg.Read16(0x2A).value / 2,
      reg.Read16(0x2E).value / 2, reg.Read16(0x32).value / 2, reg.Read16(0x51).value))
  {
    InitReadsBounds();
    ReadsValues(reg, InitReads);
  }

  /** The fields are the registers, masked to 13 bits or halved, in the order the initialiser reads them. */
  lemma DecodeFields(reg: RegMap)
    requires 0x53 <= |reg.data|
    ensures Decode(reg).Ok?
    ensures var t := Decode(reg).value;
      t.width == reg.Read16(0x7).value % 0x2000 && t.hsyncfp == reg.Read16(0x20).value
      && t.hsyncdura == reg.Read16(0x22).value && t.hsyncbp == reg.Read16(0x24).value
      && t.height == reg.Read16(0x9).value % 0x2000 && t.vsyncfp == reg.Read16(0x2A).value / 2
      && t.vsyncdura == reg.Read16(0x2E).value / 2 && t.vsyncbp == reg.Read16(0x32).value / 2
      && t.freqReg == reg.Read16(0x51).value
  {
    DecodeValue(reg);
    Mask1FFF(reg.Read16(0x7).value);
    Mask1FFF(reg.Read16(0x9).value);
  }

  /** Every register is a 16-bit value, so the totals are bounded. */
  lemma TotalsBounds(reg: RegMap)
    requires 0x53 <= |reg.data|
    ensures Decode(reg).Ok?
    ensures var t := Decode(reg).value;
      0 <= t.freqReg < 0x1_0000
      && 0 <= TotalWidth(t) <= 0x1FFF + 3 * 0xFFFF
      && 0 <= TotalHeight(t) <= 0x1FFF + 3 * 0x7FFF
  {
    DecodeValue(reg);
    var t := Decode(reg).value;
    assert t.width <= 0x1FFF && t.height <= 0x1FFF;
    assert 0 <= t.hsyncfp < 0x1_0000 && 0 <= t.hsyncdura < 0x1_0000 && 0 <= t.hsyncbp < 0x1_0000;
    assert 0 <= t.vsyncfp < 0x8000 && 0 <= t.vsyncdura < 0x8000 && 0 <= t.vsyncbp < 0x8000;
  }

  /**
   * The frequency register splits into whole megahertz (bits 7 to 15) and
   * 1/128 MHz steps (bits 0 to 6), so the clock is the register over 128.
   */
  lemma TmdsSplit(freqReg: int)
    requires 0 <= freqReg < 0x1_0000
    ensures FreqWhole(freqReg) == freqReg / 0x80 && FreqFrac(freqReg) == freqReg % 0x80
    ensures FreqWhole(freqReg) * 0x80 + FreqFrac(freqReg) == freqReg
    ensures 0 <= FreqWhole(freqReg) < 0x200
    ensures TmdsClock(freqReg) == freqReg as real / 128.0
  {
    WholeBits(freqReg);
    Mask7F(freqReg);
    SplitOver128(FreqWhole(freqReg), FreqFrac(freqReg), freqReg);
  }

  /** Whole units plus 1/128 steps, as a real. */
  lemma SplitOver128(whole: int, frac: int, r: int)
    requires r == whole * 0x80 + frac
    ensures whole as real + frac as real / 128.0 == r as real / 128.0
  {
  }

  /** Masking with 0xFF80 and shifting by 7 leaves the register over 128. */
  lemma WholeBits(freqReg: int)
    requires 0 <= freqReg < 0x1_0000
    ensures FreqWhole(freqReg) == freqReg / 0x80
  {
    DivModUnique(freqReg, 0x1_0000, 0, freqReg);
    MaskFF80(freqReg);
    Pow2Values();
    var high := freqReg - freqReg % 0x80;
    DivModUnique(high, 0x80, freqReg / 0x80, 0);
  }

  /** Two readings of the register: 0x0A00 is 20 MHz, 0x0A40 is 20.5 MHz. */
  lemma TmdsExamples()
    ensures TmdsClock(0x0A00) == 20.0 && TmdsClock(0x0A40) == 20.5
  {
    TmdsSplit(0x0A00);
    TmdsSplit(0x0A40);
  }

  /** `compute_tmds_clock` throws on a missing bank or a short one, and otherwise reads register 0x51 as the initialiser does. */
  lemma ComputeTmdsClockSpec(bank: Option<RegMap>)
    ensures bank.None? ==> ComputeTmdsClock(bank) == Err(NullMap)
    ensures bank.Some? ==> (ComputeTmdsClock(bank).Ok? <==> 0x53 <= |bank.value.data|)
    ensures bank.Some? && 0x53 <= |bank.value.data| ==>
      ComputeTmdsClock(bank).value == bank.value.Read16(0x51).value as real / 128.0
  {
    if bank.Some? && 0x53 <= |bank.value.data| {
      Read16BigEndian(bank.value, 0x51);
      TmdsSplit(bank.value.Read16(0x51).value);
    }
  }

  /**
   * The free function and the class agree: `compute_vertical_freq` computes
   * the totals and the clock that `HdmiFrontEnd`'s initialiser stores, and
   * throws where the initialiser throws.
   */
  lemma TotalsAgree(m: RegMap)
    ensures Decode(m).Ok? ==>
      (ComputeVerticalFreq(Some(m)) ==
       Ok(Some(FrameTotals(TotalWidth(Decode(m).value), TotalHeight(Decode(m).value),
                           TmdsClock(Decode(m).value.freqReg)))))
    ensures Decode(m).Err? ==> ComputeVerticalFreq(Some(m)) == Err(ReadFailed(Decode(m).error))
  {
    InitReadsSplit(m);
    var head, last := Sequence(Reads(m, TotalsReads)), m.Read16(0x51);
    if head.Err? {
      assert FreeTotals(m) == Err(head.error);
    } else if last.Err? {
      assert ComputeTmdsClock(Some(m)) == Err(ReadFailed(last.error));
    } else {
      FreeTotalsAgree(m);
    }
  }

  /** With every register present, the sums in `compute_vertical_freq` are the initialiser's totals. */
  lemma FreeTotalsAgree(m: RegMap)
    requires Sequence(Reads(m, TotalsReads)).Ok? && m.Read16(0x51).Ok?
    ensures Decode(m).Ok?
    ensures FreeTotals(m) == Ok((TotalWidth(Decode(m).value), TotalHeight(Decode(m).value)))
    ensures Decode(m).value.freqReg == m.Read16(0x51).value
  {
    InitReadsSplit(m);
    var w := Sequence(Reads(m, TotalsReads)).value;
    var v := w + [m.Read16(0x51).value];
    assert v[0] == w[0] && v[1] == w[1] && v[2] == w[2] && v[3] == w[3];
    assert v[4] == w[4] && v[5] == w[5] && v[6] == w[6] && v[7] == w[7];
    var t := Decode(m).value;
    assert FreeTotals(m).value.0 == TotalWidth(t);
    assert FreeTotals(m).value.1 == TotalHeight(t);
    assert v[8] == m.Read16(0x51).value;
  }

  /** A single read completes exactly when it does. */
  lemma SequenceSingle(r: Result<int, ReadError>)
    ensures Sequence([r]) == if r.Ok? then Ok([r.value]) else Err(r.error)
  {
    assert [r][1..] == [];
    if r.Ok? {
      assert [r.value] + [] == [r.value];
    }
  }

  /** The initialiser's reads are the totals' reads followed by the read of register 0x51. */
  lemma InitReadsSplit(m: RegMap)
    ensures var head, last := Sequence(Reads(m, TotalsReads)), m.Read16(0x51);
      (head.Err? ==> Sequence(Reads(m, InitReads)) == Err(head.error))
      && (head.Ok? && last.Err? ==> Sequence(Reads(m, InitReads)) == Err(last.error))
      && (head.Ok? && last.Ok? ==> Sequence(Reads(m, InitReads)) == Ok(head.value + [last.value]))
  {
    var tail := Reads(m, [0x51]);
    assert tail == [m.Read16(0x51)];
    SequenceSingle(m.Read16(0x51));
    ReadsAppend(m, TotalsReads, [0x51]);
    SequenceAppend(Reads(m, TotalsReads), tail);
  }

  /** A missing bank makes `compute_vertical_freq` do nothing. */
  lemma NoBankNoTotals()
    ensures ComputeVerticalFreq(None) == Ok(None)
  {
  }

  /** Kotlin `Int` arithmetic: the low 32 bits of `v`, read back as signed. */
  function Int32(v: int): (r: int)
    ensures -0x8000_0000 <= r < 0x8000_0000
    ensures (v - r) % 0x1_0000_0000 == 0
    ensures -0x8000_0000 <= v < 0x8000_0000 ==> r == v
  {
    var low := v % 0x1_0000_0000;
    if low < 0x8000_0000 then low else low - 0x1_0000_0000
  }

  /** The divisor of `compute_vertical_freq`, as written: `totalwidth * totalheight` in 32-bit `Int`s. */
  function FrameAreaAsWritten(t: Timing): int
  {
    Int32(TotalWidth(t) * TotalHeight(t))
  }

  /** The divisor as intended: the number of pixel clocks per frame, multiplied in a 64-bit `Long`. */
  function FrameArea(t: Timing): int
  {
    TotalWidth(t) * TotalHeight(t)
  }

  /** The decoded timing of a bank whose every byte is 0xFF. */
  const Saturated: Timing := Timing(0x1FFF, 0xFFFF, 0xFFFF, 0xFFFF, 0x1FFF, 0x7FFF, 0x7FFF, 0x7FFF, 0xFFFF)

  /** Every byte of the bank is 0xFF. */
  predicate AllOnes(reg: RegMap)
  {
    forall k :: 0 <= k < |reg.data| ==> reg.data[k] == -1
  }

  /** Every register of such a bank reads 0xFFFF. */
  lemma AllOnesRead(reg: RegMap, o: int)
    requires AllOnes(reg) && 0 <= o && o + 2 <= |reg.data|
    ensures reg.Read16(o) == Ok(0xFFFF)
  {
    Read16BigEndian(reg, o);
    Read8Unsigned(reg, o);
    Read8Unsigned(reg, o + 1);
  }

  /** A bank of at least 0x53 bytes, all 0xFF, decodes to `Saturated`. */
  lemma SaturatedBank(reg: RegMap)
    requires AllOnes(reg) && 0x53 <= |reg.data|
    ensures Decode(reg) == Ok(Saturated)
  {
    DecodeFields(reg);
    AllOnesRead(reg, 0x7);
    AllOnesRead(reg, 0x20);
    AllOnesRead(reg, 0x22);
    AllOnesRead(reg, 0x24);
    AllOnesRead(reg, 0x9);
    AllOnesRead(reg, 0x2A);
    AllOnesRead(reg, 0x2E);
    AllOnesRead(reg, 0x32);
    AllOnesRead(reg, 0x51);
    SaturatedValue(reg.Read16(0x7).value);
    SaturatedValue(reg.Read16(0x9).value);
    SaturatedValue(reg.Read16(0x2A).value);
    SaturatedValue(reg.Read16(0x2E).value);
    SaturatedValue(reg.Read16(0x32).value);
  }

  /** 0xFFFF masked to 13 bits, and halved. */
  lemma SaturatedValue(x: int)
    requires x == 0xFFFF
    ensures x % 0x2000 == 0x1FFF && x / 2 == 0x7FFF
  {
  }

  /**
   * The 32-bit product wraps on a bank of 0xFF bytes: the frame holds
   * 204796 * 106492 pixel clocks, but the divisor comes out as 334299152.
   */
  lemma FrameAreaWraps()
    ensures FrameArea(Saturated) == 21_809_135_632
    ensures FrameAreaAsWritten(Saturated) == 334_299_152
  {
    DivModUnique(21_809_135_632, 0x1_0000_0000, 5, 334_299_152);
  }

  /** On a bank of 0xFF bytes the divisor `compute_vertical_freq` computes differs from the frame area. */
  lemma SaturatedAreaWraps(reg: RegMap)
    requires AllOnes(reg) && 0x53 <= |reg.data|
    ensures Decode(reg).Ok?
    ensures FrameAreaAsWritten(Decode(reg).value) != FrameArea(Decode(reg).value)
  {
    SaturatedBank(reg);
    FrameAreaWraps();
  }

  lemma MulPositive(a: int, b: int)
    requires a > 0 && b > 0
    ensures a * b > 0
  {
  }

  lemma MulMonotone(a: int, b: int, x: int, y: int)
    requires 0 <= a <= x && 0 <= b <= y
    ensures 0 <= a * b <= x * y
  {
    assert a * b <= x * b;
    assert x * b <= x * y;
  }

  /**
   * For every bank the initialiser accepts, the frame area is non-negative
   * and at most 204796 * 106492, far inside a 64-bit `Long`, so a `Long`
   * product is exact; it is positive whenever both totals are.
   */
  lemma FrameAreaFits(reg: RegMap)
    requires 0x53 <= |reg.data|
    ensures Decode(reg).Ok?
    ensures 0 <= FrameArea(Decode(reg).value) <= 21_809_135_632 < 0x8000_0000_0000_0000
    ensures TotalWidth(Decode(reg).value) > 0 && TotalHeight(Decode(reg).value) > 0 ==>
      FrameArea(Decode(reg).value) > 0
  {
    TotalsBounds(reg);
    var t := Decode(reg).value;
    var w, h := TotalWidth(t), TotalHeight(t);
    MulMonotone(w, h, 204_796, 106_492);
    if w > 0 && h > 0 {
      MulPositive(w, h);
    }
  }
}
