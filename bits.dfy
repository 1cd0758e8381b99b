/**
  The `Bits` codec of utils.py: a non-negative integer treated as a bit
  sequence (bit 0 rightmost). Every operation returns a new value; the
  contracts speak of the bits of the result through `BitOps.Bit`.
*/
module Bits {
  import opened Wrappers
  import opened BitOps
  import opened Masks

  // ---------------------------------------------------------------------------
  // set / clear

  /** `reduce(or_, (1 << bit for bit in ps), x)` */
  function OrEach(x: nat, ps: seq<nat>): nat
    decreases |ps|
  {
    if ps == [] then x else OrEach(Or(x, Shl(1, ps[0])), ps[1..])
  }

  /** `reduce(and_, (~(1 << bit) for bit in ps), x)` */
  function AndNotEach(x: nat, ps: seq<nat>): nat
    decreases |ps|
  {
    if ps == [] then x else AndNotEach(AndNot(x, Shl(1, ps[0])), ps[1..])
  }

  /** `Bits.set(*positions)` */
  function Set(x: nat, positions: seq<nat>): nat
  {
    if |positions| == 1 then Or(x, Shl(1, positions[0]))
    else if |positions| > 1 then OrEach(x, positions)
    else x
  }

  /** `Bits.clear(*positions)` */
  function Clear(x: nat, positions: seq<nat>): nat
  {
    if |positions| == 1 then AndNot(x, Shl(1, positions[0]))
    else if |positions| > 1 then AndNotEach(x, positions)
    else x
  }

  lemma BitOne(p: nat, i: nat)
    ensures Bit(Shl(1, p), i) == (i == p)
  {
    BitShl(1, p, i);
    if i >= p {
      BitOfDigit(0, 1, i - p);
      if i > p {
        BitZero(i - p - 1);
      }
    }
  }

  lemma {:induction false} OrEachBits(x: nat, ps: seq<nat>, i: nat)
    ensures Bit(OrEach(x, ps), i) == (Bit(x, i) || i in ps)
    decreases |ps|
  {
    if ps != [] {
      OrEachBits(Or(x, Shl(1, ps[0])), ps[1..], i);
      BitOr(x, Shl(1, ps[0]), i);
      BitOne(ps[0], i);
      assert ps == [ps[0]] + ps[1..];
    }
  }

  lemma {:induction false} AndNotEachBits(x: nat, ps: seq<nat>, i: nat)
    ensures Bit(AndNotEach(x, ps), i) == (Bit(x, i) && i !in ps)
    decreases |ps|
  {
    if ps != [] {
      AndNotEachBits(AndNot(x, Shl(1, ps[0])), ps[1..], i);
      BitAndNot(x, Shl(1, ps[0]), i);
      BitOne(ps[0], i);
      assert ps == [ps[0]] + ps[1..];
    }
  }

  /** `set` turns on exactly the listed bits and leaves every other bit as it was. */
  lemma {:induction false} SetBits(x: nat, positions: seq<nat>, i: nat)
    ensures Bit(Set(x, positions), i) == (Bit(x, i) || i in positions)
  {
    if |positions| == 1 {
      BitOr(x, Shl(1, positions[0]), i);
      BitOne(positions[0], i);
    } else if |positions| > 1 {
      OrEachBits(x, positions, i);
    }
  }

  /** `clear` turns off exactly the listed bits and leaves every other bit as it was. */
  lemma {:induction false} ClearBits(x: nat, positions: seq<nat>, i: nat)
    ensures Bit(Clear(x, positions), i) == (Bit(x, i) && i !in positions)
  {
    if |positions| == 1 {
      BitAndNot(x, Shl(1, positions[0]), i);
      BitOne(positions[0], i);
    } else if |positions| > 1 {
      AndNotEachBits(x, positions, i);
    }
  }

  /** Setting bits twice is setting them once; clearing first makes no difference. */
  lemma {:induction false} SetIdempotent(x: nat, positions: seq<nat>)
    ensures Set(Set(x, positions), positions) == Set(x, positions)
    ensures Set(Clear(x, positions), positions) == Set(x, positions)
  {
    forall i: nat ensures Bit(Set(Set(x, positions), positions), i) == Bit(Set(x, positions), i) {
      SetBits(Set(x, positions), positions, i);
      SetBits(x, positions, i);
    }
    BitsEqual(Set(Set(x, positions), positions), Set(x, positions));
    forall i: nat ensures Bit(Set(Clear(x, positions), positions), i) == Bit(Set(x, positions), i) {
      SetBits(Clear(x, positions), positions, i);
      ClearBits(x, positions, i);
      SetBits(x, positions, i);
    }
    BitsEqual(Set(Clear(x, positions), positions), Set(x, positions));
  }

  /** Clearing bits twice is clearing them once; setting first makes no difference. */
  lemma {:induction false} ClearIdempotent(x: nat, positions: seq<nat>)
    ensures Clear(Clear(x, positions), positions) == Clear(x, positions)
    ensures Clear(Set(x, positions), positions) == Clear(x, positions)
  {
    forall i: nat ensures Bit(Clear(Clear(x, positions), positions), i) == Bit(Clear(x, positions), i) {
      ClearBits(Clear(x, positions), positions, i);
      ClearBits(x, positions, i);
    }
    BitsEqual(Clear(Clear(x, positions), positions), Clear(x, positions));
    forall i: nat ensures Bit(Clear(Set(x, positions), positions), i) == Bit(Clear(x, positions), i) {
      ClearBits(Set(x, positions), positions, i);
      SetBits(x, positions, i);
      ClearBits(x, positions, i);
    }
    BitsEqual(Clear(Set(x, positions), positions), Clear(x, positions));
  }

  // ---------------------------------------------------------------------------
  // mask

  /** Bit i after applying `mask`: the character i places from the right decides. */
  predicate MaskedBit(x: nat, mask: string, i: nat)
  {
    if i < |mask| then
      var c := mask[|mask| - 1 - i];
      if c == '1' then true else if c == '0' then false else Bit(x, i)
    else Bit(x, i)
  }

  /** `Bits.mask(mask)`: `1` sets, `0` clears, any other character keeps the bit. */
  method Mask(x: nat, mask: string) returns (r: nat)
    ensures forall i: nat :: Bit(r, i) == MaskedBit(x, mask, i)
    ensures mask == [] ==> r == x
  {
    r := x;
    var i := 0;
    while i < |mask|
      invariant 0 <= i <= |mask|
      invariant forall j: nat :: Bit(r, j) == if j < i then MaskedBit(x, mask, j) else Bit(x, j)
    {
      var marker := mask[|mask| - 1 - i];
      ghost var before := r;
      if marker == '1' {
        r := Or(r, Shl(1, i));
        forall j: nat ensures Bit(r, j) == (Bit(before, j) || j == i) {
          BitOr(before, Shl(1, i), j);
          BitOne(i, j);
        }
      } else if marker == '0' {
        r := AndNot(r, Shl(1, i));
        forall j: nat ensures Bit(r, j) == (Bit(before, j) && j != i) {
          BitAndNot(before, Shl(1, i), j);
          BitOne(i, j);
        }
      }
      i := i + 1;
    }
    if mask == [] {
      BitsEqual(r, x);
    }
  }

  // ---------------------------------------------------------------------------
  // flag / flags / compose

  /** `bool((x >> pos) & 0b1)` */
  function Flag(x: nat, pos: nat): bool
  {
    And(Shr(x, pos), 1) != 0
  }

  /** `flag(pos)` reads bit pos. */
  lemma FlagIsBit(x: nat, pos: nat)
    ensures Flag(x, pos) == Bit(x, pos)
  {
    var y := Shr(x, pos);
    LowMaskIsMod(y, 1);
    assert LowMask(1) == 1;
    BitShr(x, pos, 0);
  }

  /** `flags(n)`: the n rightmost bits, bit 0 first. */
  function Flags(x: nat, n: nat): (fs: seq<bool>)
    ensures |fs| == n
  {
    seq(n, (i: nat) => Flag(x, i))
  }

  /** Entry i of `flags(n)` is bit i. */
  lemma FlagsAreBits(x: nat, n: nat)
    ensures forall i :: 0 <= i < n ==> Flags(x, n)[i] == Bit(x, i)
  {
    forall i | 0 <= i < n ensures Flags(x, n)[i] == Bit(x, i) {
      FlagIsBit(x, i);
    }
  }

  /** `reduce(or_, (bit << i for i, bit in enumerate(fs) if bit), 0)`, folding from index i with accumulator acc. */
  function ComposeFrom(fs: seq<bool>, i: nat, acc: nat): nat
    requires i <= |fs|
    decreases |fs| - i
  {
    if i == |fs| then acc
    else ComposeFrom(fs, i + 1, if fs[i] then Or(acc, Shl(1, i)) else acc)
  }

  /** `Bits.compose(*flags)` */
  function Compose(fs: seq<bool>): nat
  {
    ComposeFrom(fs, 0, 0)
  }

  lemma {:induction false} ComposeFromBits(fs: seq<bool>, i: nat, acc: nat, j: nat)
    requires i <= |fs|
    ensures Bit(ComposeFrom(fs, i, acc), j) == (Bit(acc, j) || (i <= j < |fs| && fs[j]))
    decreases |fs| - i
  {
    if i < |fs| {
      var next := if fs[i] then Or(acc, Shl(1, i)) else acc;
      ComposeFromBits(fs, i + 1, next, j);
      BitOr(acc, Shl(1, i), j);
      BitOne(i, j);
    }
  }

  /** Bit j of `compose(*fs)` is `fs[j]`, and there is no bit past the flags. */
  lemma ComposeBits(fs: seq<bool>, j: nat)
    ensures Bit(Compose(fs), j) == (j < |fs| && fs[j])
  {
    ComposeFromBits(fs, 0, 0, j);
    BitZero(j);
  }

  /** `flags(compose(*fs), len(fs)) == fs` */
  lemma FlagsOfCompose(fs: seq<bool>)
    ensures Flags(Compose(fs), |fs|) == fs
  {
    forall i | 0 <= i < |fs| ensures Flags(Compose(fs), |fs|)[i] == fs[i] {
      FlagIsBit(Compose(fs), i);
      ComposeBits(fs, i);
    }
  }

  /** `compose(*flags(n)) == x mod 2 ** n` */
  lemma ComposeOfFlags(x: nat, n: nat)
    ensures Compose(Flags(x, n)) == x % Pow2(n)
  {
    var fs := Flags(x, n);
    BitMod(x, n, 0);
    forall i: nat ensures Bit(Compose(fs), i) == Bit(x % Pow2(n), i) {
      ComposeBits(fs, i);
      BitMod(x, n, i);
      if i < n {
        FlagIsBit(x, i);
      }
    }
    BitsEqual(Compose(fs), x % Pow2(n));
  }

  // ---------------------------------------------------------------------------
  // extract / extract2

  /** The `ValueError`s of the mask operations, with the offending marker. */
  datatype MaskError =
    | DuplicateMarker(marker: char)  // a digit marks two separate runs (extract, extract2)
    | InvalidIndex(marker: char)     // a digit with no corresponding number (pack)

  /** `x >> pos & (2 ** width - 1)`: the width bits of x from bit pos up. */
  function Field(x: nat, pos: nat, width: nat): nat
  {
    And(Shr(x, pos), LowMask(width))
  }

  /** Bit i of a field is bit `pos + i` of x below the width, and unset above it. */
  lemma FieldBits(x: nat, pos: nat, width: nat, i: nat)
    ensures Bit(Field(x, pos, width), i) == (i < width && Bit(x, pos + i))
  {
    BitAnd(Shr(x, pos), LowMask(width), i);
    BitShr(x, pos, i);
    BitLowMask(width, i);
  }

  /** A field is `(x // 2 ** pos) mod 2 ** width`. */
  lemma FieldArith(x: nat, pos: nat, width: nat)
    ensures Field(x, pos, width) == (x / Pow2(pos)) % Pow2(width)
  {
    ShrIsDiv(x, pos);
    LowMaskIsMod(Shr(x, pos), width);
  }

  /**
    The marker of the first run, left to right, whose digit already marked an
    earlier run: the run at which `extract` raises.
  */
  function FirstRepeat(rs: seq<Run>): Option<char>
    decreases |rs|
  {
    if rs == [] then None
    else
      var init, last := rs[..|rs| - 1], rs[|rs| - 1];
      var earlier := FirstRepeat(init);
      if earlier.Some? then earlier
      else if IsDigit(last.marker) && RunOf(init, last.marker).Some? then Some(last.marker)
      else None
  }

  /** The least digit below d that marks two runs: the digit at which `extract2` raises. */
  function LeastRepeat(rs: seq<Run>, d: nat): Option<char>
    requires d <= 10
  {
    if d == 0 then None
    else
      var below := LeastRepeat(rs, d - 1);
      if below.Some? then below
      else if Duplicated(rs, Digit(d - 1)) then Some(Digit(d - 1))
      else None
  }

  /** `extract` raises exactly when some digit marks two runs, and names such a digit. */
  lemma {:induction false} FirstRepeatSpec(rs: seq<Run>)
    ensures FirstRepeat(rs).None? <==> forall d :: 0 <= d < 10 ==> !Duplicated(rs, Digit(d))
    ensures FirstRepeat(rs).Some? ==> IsDigit(FirstRepeat(rs).value) && Duplicated(rs, FirstRepeat(rs).value)
    decreases |rs|
  {
    if rs != [] {
      var init, last := rs[..|rs| - 1], rs[|rs| - 1];
      assert rs == init + [last];
      FirstRepeatSpec(init);
      forall d | 0 <= d < 10
        ensures Duplicated(rs, Digit(d)) <==> Duplicated(init, Digit(d)) || (last.marker == Digit(d) && RunOf(init, Digit(d)).Some?)
      {
        DuplicatedSnoc(init, last, Digit(d));
      }
      if IsDigit(last.marker) {
        var v := DigitValue(last.marker);
        DuplicatedSnoc(init, last, last.marker);
      }
      if FirstRepeat(init).Some? {
        DuplicatedSnoc(init, last, FirstRepeat(init).value);
      }
    }
  }

  /** Once `extract` has raised on a prefix of the runs, the rest of the runs changes nothing. */
  lemma {:induction false} FirstRepeatExtends(rs: seq<Run>, k: nat)
    requires k <= |rs| && FirstRepeat(rs[..k]).Some?
    ensures FirstRepeat(rs) == FirstRepeat(rs[..k])
    decreases |rs| - k
  {
    if k < |rs| {
      assert rs[..k + 1][..k] == rs[..k];
      FirstRepeatExtends(rs, k + 1);
    } else {
      assert rs[..k] == rs;
    }
  }

  /** `extract2` raises exactly when a digit below d marks two runs, and names the least one. */
  lemma {:induction false} LeastRepeatSpec(rs: seq<Run>, d: nat)
    requires d <= 10
    ensures LeastRepeat(rs, d).None? <==> forall e :: 0 <= e < d ==> !Duplicated(rs, Digit(e))
    ensures LeastRepeat(rs, d).Some? ==>
      exists e :: 0 <= e < d && LeastRepeat(rs, d).value == Digit(e) && Duplicated(rs, Digit(e))
        && (forall e' :: 0 <= e' < e ==> !Duplicated(rs, Digit(e')))
  {
    if d > 0 {
      LeastRepeatSpec(rs, d - 1);
    }
  }

  /** Both variants fail on the same masks. */
  lemma RepeatsAgree(rs: seq<Run>)
    ensures FirstRepeat(rs).None? <==> LeastRepeat(rs, 10).None?
  {
    FirstRepeatSpec(rs);
    LeastRepeatSpec(rs, 10);
  }

  /** The number held by the run marked with digit d, if d marks a run. */
  function Slot(x: nat, rs: seq<Run>, d: nat): Option<nat>
    requires d < 10
  {
    match RunOf(rs, Digit(d))
    case Some(r) => Some(Field(x, r.pos, r.width))
    case None => None
  }

  /** The numbers of the runs marked 0, 1, ..., d - 1, in that order, skipping digits that mark no run. */
  function Collect(x: nat, rs: seq<Run>, d: nat): seq<nat>
    requires d <= 10
  {
    if d == 0 then []
    else Collect(x, rs, d - 1) + match Slot(x, rs, d - 1) case Some(v) => [v] case None => []
  }

  /** `tuple(num for num in result if num is not Ellipsis)` */
  function Somes(slots: seq<Option<nat>>): seq<nat>
  {
    if slots == [] then []
    else Somes(slots[..|slots| - 1]) + match slots[|slots| - 1] case Some(v) => [v] case None => []
  }

  /**
    What `extract2` returns for the mask m (separator already removed): an
    error naming the least repeated digit, or the numbers of the digit runs by
    ascending digit.
  */
  function Fields(x: nat, m: string): Result<seq<nat>, MaskError>
  {
    var rs := Runs(m);
    match LeastRepeat(rs, 10)
    case Some(c) => Err(DuplicateMarker(c))
    case None => Ok(Collect(x, rs, 10))
  }

  /**
    What `extract` returns for the mask m (separator already removed): the same
    numbers as `Fields`, but the error names the first repeated group met.
  */
  function ScanFields(x: nat, m: string): Result<seq<nat>, MaskError>
  {
    var rs := Runs(m);
    match FirstRepeat(rs)
    case Some(c) => Err(DuplicateMarker(c))
    case None => Ok(Collect(x, rs, 10))
  }

  /** A digit that does not occur in m marks no run: no number, no duplicate. */
  lemma AbsentDigit(x: nat, m: string, d: nat)
    requires d < 10 && Digit(d) !in m
    ensures Slot(x, Runs(m), d) == None && !Duplicated(Runs(m), Digit(d))
  {
    InRuns(m, Digit(d));
    DuplicatedHasRun(Runs(m), Digit(d));
  }

  /** Digits that mark no run add nothing to the collected numbers. */
  lemma {:induction false} CollectAbsent(x: nat, rs: seq<Run>, d: nat, e: nat)
    requires d <= e <= 10
    requires forall j :: d <= j < e ==> Slot(x, rs, j).None?
    ensures Collect(x, rs, e) == Collect(x, rs, d)
    decreases e
  {
    if e > d {
      CollectAbsent(x, rs, d, e - 1);
    }
  }

  /** Without digits, both variants return no numbers. */
  lemma NoDigitFields(x: nat, m: string)
    requires forall i :: 0 <= i < |m| ==> !IsDigit(m[i])
    ensures ScanFields(x, m) == Ok([]) && Fields(x, m) == Ok([])
  {
    forall d | 0 <= d < 10 ensures Slot(x, Runs(m), d) == None && !Duplicated(Runs(m), Digit(d)) {
      AbsentDigit(x, m, d);
    }
    FirstRepeatSpec(Runs(m));
    LeastRepeatSpec(Runs(m), 10);
    CollectAbsent(x, Runs(m), 0, 10);
  }

  /** Digits above the greatest one in m mark no run. */
  lemma AboveMax(x: nat, m: string, n: nat)
    requires MaxDigit(m) == Some(n)
    ensures forall d :: n < d < 10 ==> Slot(x, Runs(m), d).None? && !Duplicated(Runs(m), Digit(d))
    ensures Collect(x, Runs(m), 10) == Collect(x, Runs(m), n + 1)
  {
    forall d | n < d < 10 ensures Slot(x, Runs(m), d).None? && !Duplicated(Runs(m), Digit(d)) {
      AbsentDigit(x, m, d);
    }
    CollectAbsent(x, Runs(m), n + 1, 10);
  }

  /** The filled slots of `extract`'s result list, read in order, are the collected numbers. */
  lemma {:induction false} SomesCollect(x: nat, rs: seq<Run>, slots: seq<Option<nat>>, d: nat)
    requires |slots| <= 10 && d <= |slots|
    requires forall j :: 0 <= j < |slots| ==> slots[j] == Slot(x, rs, j)
    ensures Somes(slots[..d]) == Collect(x, rs, d)
    decreases d
  {
    if d > 0 {
      SomesCollect(x, rs, slots, d - 1);
      assert slots[..d][..d - 1] == slots[..d - 1];
    }
  }

  /** The slots of `extract`'s result list after the first k runs. */
  predicate SlotsHold(x: nat, rs: seq<Run>, k: nat, slots: seq<Option<nat>>)
    requires k <= |rs| && |slots| <= 10
  {
    forall d :: 0 <= d < |slots| ==> slots[d] == Slot(x, rs[..k], d)
  }

  /** A run that is not a digit group leaves the slots and the error state alone. */
  lemma SlotsSkip(x: nat, rs: seq<Run>, k: nat, slots: seq<Option<nat>>)
    requires k < |rs| && |slots| <= 10 && !IsDigit(rs[k].marker)
    requires SlotsHold(x, rs, k, slots) && FirstRepeat(rs[..k]) == None
    ensures SlotsHold(x, rs, k + 1, slots) && FirstRepeat(rs[..k + 1]) == None
  {
    assert rs[..k + 1] == rs[..k] + [rs[k]];
    assert rs[..k + 1][..k] == rs[..k];
    forall d | 0 <= d < |slots| ensures slots[d] == Slot(x, rs[..k + 1], d) {
      RunOfSnoc(rs[..k], rs[k], Digit(d));
    }
  }

  /** A digit group fills the empty slot of its digit, or makes `extract` raise on a filled one. */
  lemma SlotsFill(x: nat, rs: seq<Run>, k: nat, slots: seq<Option<nat>>, i: nat)
    requires k < |rs| && |slots| <= 10 && i < |slots| && rs[k].marker == Digit(i)
    requires SlotsHold(x, rs, k, slots) && FirstRepeat(rs[..k]) == None
    ensures slots[i].Some? ==> FirstRepeat(rs) == Some(Digit(i))
    ensures slots[i].None? ==>
      && SlotsHold(x, rs, k + 1, slots[i := Some(Field(x, rs[k].pos, rs[k].width))])
      && FirstRepeat(rs[..k + 1]) == None
  {
    assert rs[..k + 1] == rs[..k] + [rs[k]];
    assert rs[..k + 1][..k] == rs[..k];
    if slots[i].Some? {
      assert FirstRepeat(rs[..k + 1]) == Some(Digit(i));
      FirstRepeatExtends(rs, k + 1);
    } else {
      var filled := slots[i := Some(Field(x, rs[k].pos, rs[k].width))];
      forall d | 0 <= d < |slots| ensures filled[d] == Slot(x, rs[..k + 1], d) {
        RunOfSnoc(rs[..k], rs[k], Digit(d));
        DigitInjective(d, i);
      }
    }
  }

  /** Walking the groups from the left, `pos` drops to the position of each run in turn. */
  lemma GroupStep(m: string, k: nat, n: nat)
    requires k < |Runs(m)| && MaxDigit(m) == Some(n)
    ensures var rs := Runs(m);
      && |GroupBy(m)| == |rs|
      && GroupBy(m)[k] == Group(rs[k].marker, rs[k].width)
      && rs[k].pos + rs[k].width == (if k == 0 then |m| else rs[k - 1].pos)
      && (IsDigit(rs[k].marker) ==> DigitValue(rs[k].marker) <= n)
  {
    var rs := Runs(m);
    GroupsAreRuns(m);
    RunsTile(m, k);
    assert m[|m| - rs[k].pos - rs[k].width] == rs[k].marker;
  }

  /** The filled slots at the end are the collected numbers of the whole mask. */
  lemma SlotsDone(x: nat, m: string, slots: seq<Option<nat>>, n: nat)
    requires MaxDigit(m) == Some(n) && |slots| == n + 1
    requires SlotsHold(x, Runs(m), |Runs(m)|, slots)
    ensures Somes(slots) == Collect(x, Runs(m), 10)
  {
    var rs := Runs(m);
    assert rs[..|rs|] == rs;
    SomesCollect(x, rs, slots, n + 1);
    assert slots[..n + 1] == slots;
    AboveMax(x, m, n);
  }

  /**
    `Bits.extract(mask, sep=sep)`: walks the `groupby` groups of the mask from
    the left, each digit group filling the slot of its digit, and raises on the
    first group whose slot is already filled.
  */
  method Extract(x: nat, mask: string, sep: string) returns (r: Result<seq<nat>, MaskError>)
    ensures r == ScanFields(x, RemoveSep(mask, sep))
  {
    var m := RemoveSep(mask, sep);
    var top := MaxDigit(m);
    if top.None? {
      NoDigitFields(x, m);
      return Ok([]);
    }
    var slots := FillSlots(x, m, top.value);
    if slots.Err? {
      return Err(slots.error);
    }
    SlotsDone(x, m, slots.value, top.value);
    return Ok(Somes(slots.value));
  }

  /**
    The loop of `extract`: one slot per digit up to the largest, each filled
    with the number of its digit's group, or the first group whose slot is
    already filled.
  */
  method FillSlots(x: nat, m: string, n: nat) returns (r: Result<seq<Option<nat>>, MaskError>)
    requires MaxDigit(m) == Some(n)
    ensures r.Err? ==> FirstRepeat(Runs(m)).Some? && r.error == DuplicateMarker(FirstRepeat(Runs(m)).value)
    ensures r.Ok? ==> FirstRepeat(Runs(m)) == None && |r.value| == n + 1 && SlotsHold(x, Runs(m), |Runs(m)|, r.value)
  {
    ghost var rs := Runs(m);
    var result: seq<Option<nat>> := seq(n + 1, _ => None);
    var pos := |m|;
    var groups := GroupBy(m);
    GroupsAreRuns(m);
    var k := 0;
    while k < |groups|
      invariant 0 <= k <= |groups| == |rs|
      invariant pos == if k == 0 then |m| else rs[k - 1].pos
      invariant |result| == n + 1
      invariant SlotsHold(x, rs, k, result) && FirstRepeat(rs[..k]) == None
    {
      GroupStep(m, k, n);
      var marker, size := groups[k].marker, groups[k].size;
      pos := pos - size;
      if IsDigit(marker) {
        var i := DigitValue(marker);
        SlotsFill(x, rs, k, result, i);
        if result[i].Some? {
          return Err(DuplicateMarker(marker));
        }
        result := result[i := Some(Field(x, pos, size))];
      } else {
        SlotsSkip(x, rs, k, result);
      }
      k := k + 1;
    }
    assert rs[..k] == rs;
    return Ok(result);
  }

  /** Once a digit below d is found repeated, `extract2`'s verdict is fixed. */
  lemma {:induction false} LeastRepeatExtends(rs: seq<Run>, d: nat, e: nat)
    requires d <= e <= 10 && LeastRepeat(rs, d).Some?
    ensures LeastRepeat(rs, e) == LeastRepeat(rs, d)
    decreases e
  {
    if e > d {
      LeastRepeatExtends(rs, d, e - 1);
    }
  }

  /** One digit of `extract2`'s loop, for a digit that occurs in the mask. */
  lemma SplitStep(x: nat, m: string, d: nat)
    requires d < 10 && Digit(d) in m && LeastRepeat(Runs(m), d) == None
    ensures var parts := SplitRuns(m, Digit(d));
      && |parts| >= 3
      && (|parts| - 2 > 1 ==> LeastRepeat(Runs(m), 10) == Some(Digit(d)))
      && (|parts| - 2 <= 1 ==>
            && LeastRepeat(Runs(m), d + 1) == None
            && Collect(x, Runs(m), d + 1) == Collect(x, Runs(m), d) + [Field(x, |parts[2]|, |parts[1]|)])
  {
    var rs := Runs(m);
    InRuns(m, Digit(d));
    var r := RunOf(rs, Digit(d)).value;
    SplitRunsAgree(m, Digit(d), r);
    if Duplicated(rs, Digit(d)) {
      LeastRepeatExtends(rs, d + 1, 10);
    }
  }

  /** One digit of `extract2`'s loop, for a digit that does not occur in the mask. */
  lemma AbsentStep(x: nat, m: string, d: nat)
    requires d < 10 && Digit(d) !in m && LeastRepeat(Runs(m), d) == None
    ensures LeastRepeat(Runs(m), d + 1) == None && Collect(x, Runs(m), d + 1) == Collect(x, Runs(m), d)
  {
    AbsentDigit(x, m, d);
  }

  /** After the greatest digit, nothing more is found. */
  lemma SplitDone(x: nat, m: string, n: nat)
    requires MaxDigit(m) == Some(n) && LeastRepeat(Runs(m), n + 1) == None
    ensures Fields(x, m) == Ok(Collect(x, Runs(m), n + 1))
  {
    AboveMax(x, m, n);
    LeastRepeatSpec(Runs(m), n + 1);
    LeastRepeatSpec(Runs(m), 10);
  }

  /**
    `Bits.extract2(mask, sep=sep)`: for each digit up to the greatest one in the
    mask, splits the mask around the runs of that digit and raises when there is
    more than one.
  */
  method Extract2(x: nat, mask: string, sep: string) returns (r: Result<seq<nat>, MaskError>)
    ensures r == Fields(x, RemoveSep(mask, sep))
  {
    var m := RemoveSep(mask, sep);
    ghost var rs := Runs(m);
    var top := MaxDigit(m);
    if top.None? {
      NoDigitFields(x, m);
      return Ok([]);
    }
    var n := top.value;
    var result := [];
    var d := 0;
    while d <= n
      invariant 0 <= d <= n + 1
      invariant LeastRepeat(rs, d) == None
      invariant result == Collect(x, rs, d)
    {
      var marker := Digit(d);
      if marker in m {
        SplitStep(x, m, d);
        var parts := SplitRuns(m, marker);
        var group, after := parts[1], parts[2..];
        if |after| > 1 {
          return Err(DuplicateMarker(marker));
        }
        result := result + [Field(x, |after[0]|, |group|)];
      } else {
        AbsentStep(x, m, d);
      }
      d := d + 1;
    }
    SplitDone(x, m, n);
    return Ok(result);
  }

  /** `extract` and `extract2` fail on the same masks and otherwise return the same numbers. */
  lemma ExtractsAgree(x: nat, m: string)
    ensures ScanFields(x, m).Ok? <==> Fields(x, m).Ok?
    ensures ScanFields(x, m).Ok? ==> ScanFields(x, m) == Fields(x, m)
    ensures ScanFields(x, m).Err? ==>
      IsDigit(ScanFields(x, m).error.marker) && Duplicated(Runs(m), ScanFields(x, m).error.marker)
    ensures Fields(x, m).Err? ==>
      IsDigit(Fields(x, m).error.marker) && Duplicated(Runs(m), Fields(x, m).error.marker)
  {
    RepeatsAgree(Runs(m));
    FirstRepeatSpec(Runs(m));
    LeastRepeatSpec(Runs(m), 10);
  }

  // ---------------------------------------------------------------------------
  // pack

  /**
    `v & (2 ** w - 1)`. Python's `&` treats a negative v as an infinite two's
    complement, which makes this `v mod 2 ** w` for every integer v.
  */
  function Truncate(v: int, w: nat): (t: nat)
    ensures t < Pow2(w)
  {
    v % Pow2(w)
  }

  /** On non-negative numbers `Truncate` is the `&` of `BitOps`. */
  lemma TruncateIsAnd(v: nat, w: nat)
    ensures Truncate(v, w) == And(v, LowMask(w))
  {
    LowMaskIsMod(v, w);
  }

  /** The marker of the first digit run, left to right, that has no number: where `pack` raises. */
  function FirstInvalid(rs: seq<Run>, count: nat): Option<char>
  {
    if rs == [] then None
    else if IsDigit(rs[0].marker) && DigitValue(rs[0].marker) >= count then Some(rs[0].marker)
    else FirstInvalid(rs[1..], count)
  }

  /** The first digit run, left to right, that covers bit i. */
  function DigitRunAt(rs: seq<Run>, i: nat): (r: Option<Run>)
    ensures r.Some? ==> r.value in rs && IsDigit(r.value.marker) && r.value.pos <= i < r.value.pos + r.value.width
  {
    if rs == [] then None
    else if IsDigit(rs[0].marker) && rs[0].pos <= i < rs[0].pos + rs[0].width then Some(rs[0])
    else DigitRunAt(rs[1..], i)
  }

  /** Bit i of what the digit runs write: the bit of the truncated number of the run covering i. */
  predicate WrittenBit(rs: seq<Run>, nums: seq<int>, i: nat)
  {
    match DigitRunAt(rs, i)
    case Some(r) =>
      var d := DigitValue(r.marker);
      d < |nums| && Bit(Truncate(nums[d], r.width), i - r.pos)
    case None => false
  }

  /** Bit i after `pack`: written by the digit run covering it, or else the original bit. */
  predicate PackedBit(x: nat, rs: seq<Run>, nums: seq<int>, i: nat)
  {
    if DigitRunAt(rs, i).Some? then WrittenBit(rs, nums, i) else Bit(x, i)
  }

  /** The runs of a mask do not overlap: a later run lies entirely to the right of an earlier one. */
  predicate Disjoint(rs: seq<Run>)
  {
    forall a, b :: 0 <= a < b < |rs| ==> rs[b].pos + rs[b].width <= rs[a].pos
  }

  lemma {:induction false} RunsDisjointFrom(s: string, a: nat, b: nat)
    requires a < b < |Runs(s)|
    ensures Runs(s)[b].pos + Runs(s)[b].width <= Runs(s)[a].pos
    decreases b
  {
    RunsTile(s, b);
    if a < b - 1 {
      RunsDisjointFrom(s, a, b - 1);
      RunsTile(s, b - 1);
    }
  }

  lemma RunsDisjoint(s: string)
    ensures Disjoint(Runs(s))
  {
    forall a, b | 0 <= a < b < |Runs(s)| ensures Runs(s)[b].pos + Runs(s)[b].width <= Runs(s)[a].pos {
      RunsDisjointFrom(s, a, b);
    }
  }

  /** In disjoint runs, the digit run covering bit i is the one found. */
  lemma {:induction false} CoveringRun(rs: seq<Run>, j: nat, i: nat)
    requires Disjoint(rs) && j < |rs| && IsDigit(rs[j].marker)
    requires rs[j].pos <= i < rs[j].pos + rs[j].width
    ensures DigitRunAt(rs, i) == Some(rs[j])
    decreases j
  {
    if j > 0 {
      assert rs[j].pos + rs[j].width <= rs[0].pos;
      assert rs[1..][j - 1] == rs[j];
      CoveringRun(rs[1..], j - 1, i);
    }
  }

  lemma {:induction false} DigitRunAtSnoc(rs: seq<Run>, r: Run, i: nat)
    ensures DigitRunAt(rs + [r], i) ==
      if DigitRunAt(rs, i).Some? then DigitRunAt(rs, i)
      else if IsDigit(r.marker) && r.pos <= i < r.pos + r.width then Some(r)
      else None
    decreases |rs|
  {
    if rs != [] {
      assert (rs + [r])[1..] == rs[1..] + [r];
      DigitRunAtSnoc(rs[1..], r, i);
    }
  }

  lemma {:induction false} FirstInvalidSplit(a: seq<Run>, b: seq<Run>, count: nat)
    ensures FirstInvalid(a + b, count) == if FirstInvalid(a, count).Some? then FirstInvalid(a, count) else FirstInvalid(b, count)
    decreases |a|
  {
    if a == [] {
      assert a + b == b;
    } else {
      assert (a + b)[1..] == a[1..] + b;
      FirstInvalidSplit(a[1..], b, count);
    }
  }

  /** `pack` raises exactly when some digit run has no number, and names such a digit. */
  lemma {:induction false} FirstInvalidSpec(rs: seq<Run>, count: nat)
    ensures FirstInvalid(rs, count).None? <==>
      forall j :: 0 <= j < |rs| && IsDigit(rs[j].marker) ==> DigitValue(rs[j].marker) < count
    ensures FirstInvalid(rs, count).Some? ==>
      var c := FirstInvalid(rs, count).value; IsDigit(c) && DigitValue(c) >= count && RunOf(rs, c).Some?
    decreases |rs|
  {
    if rs != [] {
      FirstInvalidSpec(rs[1..], count);
      forall j | 0 < j < |rs| ensures rs[j] == rs[1..][j - 1] {
      }
    }
  }

  /** What `result` and `result_mask` hold after the first k runs. */
  ghost predicate Accumulated(rs: seq<Run>, k: nat, nums: seq<int>, result: nat, resultMask: nat)
    requires k <= |rs|
  {
    forall i: nat :: Bit(resultMask, i) == DigitRunAt(rs[..k], i).Some? && Bit(result, i) == WrittenBit(rs[..k], nums, i)
  }

  /** A run that is not a digit group changes nothing. */
  lemma PackSkip(rs: seq<Run>, k: nat, nums: seq<int>, result: nat, resultMask: nat)
    requires k < |rs| && !IsDigit(rs[k].marker) && FirstInvalid(rs[..k], |nums|) == None
    requires Accumulated(rs, k, nums, result, resultMask)
    ensures Accumulated(rs, k + 1, nums, result, resultMask) && FirstInvalid(rs[..k + 1], |nums|) == None
  {
    assert rs[..k + 1] == rs[..k] + [rs[k]];
    FirstInvalidSplit(rs[..k], [rs[k]], |nums|);
    forall i: nat ensures DigitRunAt(rs[..k + 1], i) == DigitRunAt(rs[..k], i) {
      DigitRunAtSnoc(rs[..k], rs[k], i);
    }
  }

  /** No run before run k reaches down to the bits run k covers. */
  lemma EarlierRunsAbove(m: string, k: nat, i: nat)
    requires k < |Runs(m)| && Runs(m)[k].pos <= i < Runs(m)[k].pos + Runs(m)[k].width
    ensures DigitRunAt(Runs(m)[..k], i) == None
  {
    var rs := Runs(m);
    RunsDisjoint(m);
    forall q | q in rs[..k] ensures i < q.pos {
      var a :| 0 <= a < k && rs[..k][a] == q;
      assert rs[a] == q;
    }
  }

  /** Bit i of the truncated number shifted to pos, and of the run's mask shifted likewise. */
  lemma ShiftedBits(v: nat, w: nat, pos: nat, i: nat)
    requires v < Pow2(w)
    ensures Bit(Shl(v, pos), i) == (pos <= i < pos + w && Bit(v, i - pos))
    ensures Bit(Shl(LowMask(w), pos), i) == (pos <= i < pos + w)
  {
    BitShl(LowMask(w), pos, i);
    BitShl(v, pos, i);
    if i >= pos {
      BitLowMask(w, i - pos);
      if i - pos >= w {
        BitAboveWidth(v, w, i - pos);
      }
    }
  }

  /** A digit group with a number ORs that number, truncated and shifted, into `result`. */
  lemma PackWrite(m: string, k: nat, nums: seq<int>, result: nat, resultMask: nat)
    requires k < |Runs(m)| && IsDigit(Runs(m)[k].marker) && DigitValue(Runs(m)[k].marker) < |nums|
    requires FirstInvalid(Runs(m)[..k], |nums|) == None
    requires Accumulated(Runs(m), k, nums, result, resultMask)
    ensures var r := Runs(m)[k];
      && FirstInvalid(Runs(m)[..k + 1], |nums|) == None
      && Accumulated(Runs(m), k + 1, nums,
           Or(result, Shl(Truncate(nums[DigitValue(r.marker)], r.width), r.pos)),
           Or(resultMask, Shl(LowMask(r.width), r.pos)))
  {
    var rs := Runs(m);
    var r := rs[k];
    var v := Truncate(nums[DigitValue(r.marker)], r.width);
    assert rs[..k + 1] == rs[..k] + [r];
    FirstInvalidSplit(rs[..k], [r], |nums|);
    forall i: nat
      ensures Bit(Or(resultMask, Shl(LowMask(r.width), r.pos)), i) == DigitRunAt(rs[..k + 1], i).Some?
      ensures Bit(Or(result, Shl(v, r.pos)), i) == WrittenBit(rs[..k + 1], nums, i)
    {
      if r.pos <= i < r.pos + r.width {
        EarlierRunsAbove(m, k, i);
      }
      PackWriteBit(rs[..k], r, nums, result, resultMask, i);
    }
  }

  /** `PackWrite` at one bit i, for the runs before the digit run r and r itself. */
  lemma PackWriteBit(pre: seq<Run>, r: Run, nums: seq<int>, result: nat, resultMask: nat, i: nat)
    requires IsDigit(r.marker) && DigitValue(r.marker) < |nums|
    requires r.pos <= i < r.pos + r.width ==> DigitRunAt(pre, i) == None
    requires Bit(resultMask, i) == DigitRunAt(pre, i).Some?
    requires Bit(result, i) == WrittenBit(pre, nums, i)
    ensures Bit(Or(resultMask, Shl(LowMask(r.width), r.pos)), i) == DigitRunAt(pre + [r], i).Some?
    ensures Bit(Or(result, Shl(Truncate(nums[DigitValue(r.marker)], r.width), r.pos)), i) == WrittenBit(pre + [r], nums, i)
  {
    var v := Truncate(nums[DigitValue(r.marker)], r.width);
    DigitRunAtSnoc(pre, r, i);
    BitOr(resultMask, Shl(LowMask(r.width), r.pos), i);
    BitOr(result, Shl(v, r.pos), i);
    ShiftedBits(v, r.width, r.pos, i);
  }

  /** Reaching a digit with no number makes `pack` raise with that marker. */
  lemma PackInvalid(rs: seq<Run>, k: nat, count: nat)
    requires k < |rs| && IsDigit(rs[k].marker) && DigitValue(rs[k].marker) >= count
    requires FirstInvalid(rs[..k], count) == None
    ensures FirstInvalid(rs, count) == Some(rs[k].marker)
  {
    assert rs == rs[..k] + rs[k..];
    FirstInvalidSplit(rs[..k], rs[k..], count);
  }

  /** `self & ~result_mask | result` has the packed bits. */
  lemma PackDone(x: nat, rs: seq<Run>, nums: seq<int>, result: nat, resultMask: nat)
    requires Accumulated(rs, |rs|, nums, result, resultMask)
    ensures forall i: nat :: Bit(Or(AndNot(x, resultMask), result), i) == PackedBit(x, rs, nums, i)
  {
    assert rs[..|rs|] == rs;
    forall i: nat ensures Bit(Or(AndNot(x, resultMask), result), i) == PackedBit(x, rs, nums, i) {
      BitOr(AndNot(x, resultMask), result, i);
      BitAndNot(x, resultMask, i);
    }
  }

  /**
    `Bits.pack(mask, *nums, sep=sep)`: walks the `groupby` groups of the mask
    from the left, ORing each digit group's number (truncated to the group's
    width) into `result` and the group's positions into `result_mask`, then
    replaces the masked bits of x. A digit with no number raises.
  */
  method Pack(x: nat, mask: string, nums: seq<int>, sep: string) returns (r: Result<nat, MaskError>)
    ensures var rs := Runs(RemoveSep(mask, sep));
      && (r.Err? <==> FirstInvalid(rs, |nums|).Some?)
      && (r.Err? ==> r.error == InvalidIndex(FirstInvalid(rs, |nums|).value))
      && (r.Ok? ==> forall i: nat :: Bit(r.value, i) == PackedBit(x, rs, nums, i))
  {
    var m := RemoveSep(mask, sep);
    ghost var rs := Runs(m);
    var result, resultMask := 0, 0;
    var pos := |m|;
    var groups := GroupBy(m);
    GroupsAreRuns(m);
    var k := 0;
    forall i: nat ensures !Bit(0, i) {
      BitZero(i);
    }
    while k < |groups|
      invariant 0 <= k <= |groups| == |rs|
      invariant pos == if k == 0 then |m| else rs[k - 1].pos
      invariant FirstInvalid(rs[..k], |nums|) == None
      invariant Accumulated(rs, k, nums, result, resultMask)
    {
      RunsTile(m, k);
      var marker, numSize := groups[k].marker, groups[k].size;
      pos := pos - numSize;
      if IsDigit(marker) {
        var i := DigitValue(marker);
        if i >= |nums| {
          PackInvalid(rs, k, |nums|);
          return Err(InvalidIndex(marker));
        }
        PackWrite(m, k, nums, result, resultMask);
        var numMask := LowMask(numSize);
        result := Or(result, Shl(Truncate(nums[i], numSize), pos));
        resultMask := Or(resultMask, Shl(numMask, pos));
      } else {
        PackSkip(rs, k, nums, result, resultMask);
      }
      k := k + 1;
    }
    PackDone(x, rs, nums, result, resultMask);
    assert rs[..k] == rs;
    return Ok(Or(AndNot(x, resultMask), result));
  }

  /** A mask without digits leaves every bit as it was, whatever the numbers. */
  lemma PackNoDigits(x: nat, m: string, nums: seq<int>)
    requires forall i :: 0 <= i < |m| ==> !IsDigit(m[i])
    ensures FirstInvalid(Runs(m), |nums|) == None
    ensures forall i: nat :: PackedBit(x, Runs(m), nums, i) == Bit(x, i)
  {
    var rs := Runs(m);
    forall j | 0 <= j < |rs| ensures !IsDigit(rs[j].marker) {
      RunsTile(m, j);
      assert m[|m| - rs[j].pos - rs[j].width] == rs[j].marker;
    }
    FirstInvalidSpec(rs, |nums|);
  }

  // ---------------------------------------------------------------------------
  // pack and extract are inverse

  /** The digits marking runs are exactly 0, 1, ..., k - 1. */
  predicate DigitsBelow(rs: seq<Run>, k: nat)
  {
    k <= 10 && forall d :: 0 <= d < 10 ==> (RunOf(rs, Digit(d)).Some? <==> d < k)
  }

  /** With digits 0..k-1, the collected numbers are one per digit, in digit order. */
  lemma {:induction false} CollectBelow(x: nat, rs: seq<Run>, k: nat, j: nat)
    requires DigitsBelow(rs, k) && j <= k
    ensures |Collect(x, rs, j)| == j
    ensures forall d :: 0 <= d < j ==> Slot(x, rs, d).Some? && Collect(x, rs, j)[d] == Slot(x, rs, d).value
    decreases j
  {
    if j > 0 {
      CollectBelow(x, rs, k, j - 1);
    }
  }

  lemma CollectAll(x: nat, rs: seq<Run>, k: nat)
    requires DigitsBelow(rs, k)
    ensures Collect(x, rs, 10) == Collect(x, rs, k)
  {
    CollectAbsent(x, rs, k, 10);
  }

  /** A run whose marker marks no other run is the one `RunOf` finds. */
  lemma {:induction false} UniqueRun(rs: seq<Run>, j: nat, c: char)
    requires j < |rs| && rs[j].marker == c && !Duplicated(rs, c)
    ensures RunOf(rs, c) == Some(rs[j])
    decreases j
  {
    if j > 0 {
      assert rs[0].marker != c;
      assert rs[1..][j - 1] == rs[j];
      DuplicatedTail(rs, c);
      UniqueRun(rs[1..], j - 1, c);
    }
  }

  /** A marker repeated after the first run is repeated in the whole list. */
  lemma DuplicatedTail(rs: seq<Run>, c: char)
    requires rs != []
    ensures Duplicated(rs[1..], c) ==> Duplicated(rs, c)
  {
    if Duplicated(rs[1..], c) {
      var a, b :| 0 <= a < b < |rs[1..]| && rs[1..][a].marker == c && rs[1..][b].marker == c;
      assert rs[a + 1].marker == c && rs[b + 1].marker == c;
    }
  }

  /** The field read back from a run of packed bits is the number written there, truncated. */
  lemma FieldOfPacked(x: nat, m: string, nums: seq<int>, p: nat, j: nat)
    requires forall i: nat :: Bit(p, i) == PackedBit(x, Runs(m), nums, i)
    requires j < |Runs(m)| && IsDigit(Runs(m)[j].marker) && DigitValue(Runs(m)[j].marker) < |nums|
    ensures var r := Runs(m)[j];
      Field(p, r.pos, r.width) == Truncate(nums[DigitValue(r.marker)], r.width)
  {
    var rs := Runs(m);
    var r := rs[j];
    var v := Truncate(nums[DigitValue(r.marker)], r.width);
    RunsDisjoint(m);
    forall t: nat ensures Bit(Field(p, r.pos, r.width), t) == Bit(v, t) {
      FieldOfPackedBit(x, rs, nums, p, j, t);
    }
    BitsEqual(Field(p, r.pos, r.width), v);
  }

  /** `FieldOfPacked` at bit t of the field of run j. */
  lemma FieldOfPackedBit(x: nat, rs: seq<Run>, nums: seq<int>, p: nat, j: nat, t: nat)
    requires Disjoint(rs) && j < |rs| && IsDigit(rs[j].marker) && DigitValue(rs[j].marker) < |nums|
    requires Bit(p, rs[j].pos + t) == PackedBit(x, rs, nums, rs[j].pos + t)
    ensures var r := rs[j];
      Bit(Field(p, r.pos, r.width), t) == Bit(Truncate(nums[DigitValue(r.marker)], r.width), t)
  {
    var r := rs[j];
    FieldBits(p, r.pos, r.width, t);
    if t < r.width {
      CoveringRun(rs, j, r.pos + t);
      assert r.pos + t - r.pos == t;
    } else {
      BitAboveWidth(Truncate(nums[DigitValue(r.marker)], r.width), r.width, t);
    }
  }

  /**
    `extract(pack(x, m, *nums))`: on a mask whose digits are 0..k-1, each
    marking one run, the numbers read back are the numbers packed, each
    truncated to the width of its run.
  */
  lemma ExtractAfterPack(x: nat, m: string, nums: seq<int>, p: nat, k: nat)
    requires FirstInvalid(Runs(m), |nums|) == None
    requires forall i: nat :: Bit(p, i) == PackedBit(x, Runs(m), nums, i)
    requires LeastRepeat(Runs(m), 10) == None && DigitsBelow(Runs(m), k)
    ensures Fields(p, m).Ok? && |Fields(p, m).value| == k
    ensures forall d :: 0 <= d < k ==>
      && d < |nums| && RunOf(Runs(m), Digit(d)).Some?
      && Fields(p, m).value[d] == Truncate(nums[d], RunOf(Runs(m), Digit(d)).value.width)
  {
    var rs := Runs(m);
    CollectAll(p, rs, k);
    CollectBelow(p, rs, k, k);
    FirstInvalidSpec(rs, |nums|);
    forall d | 0 <= d < k
      ensures d < |nums| && Collect(p, rs, k)[d] == Truncate(nums[d], RunOf(rs, Digit(d)).value.width)
    {
      ExtractedDigit(x, m, nums, p, k, d);
    }
  }

  /** The number read back for digit d is the number written for it, truncated. */
  lemma ExtractedDigit(x: nat, m: string, nums: seq<int>, p: nat, k: nat, d: nat)
    requires forall i: nat :: Bit(p, i) == PackedBit(x, Runs(m), nums, i)
    requires DigitsBelow(Runs(m), k) && d < k
    requires |Collect(p, Runs(m), k)| == k
    requires forall e :: 0 <= e < k ==> Slot(p, Runs(m), e).Some? && Collect(p, Runs(m), k)[e] == Slot(p, Runs(m), e).value
    requires RunOf(Runs(m), Digit(d)).Some? ==> DigitValue(RunOf(Runs(m), Digit(d)).value.marker) < |nums|
    ensures RunOf(Runs(m), Digit(d)).Some? && d < |nums|
    ensures Collect(p, Runs(m), k)[d] == Truncate(nums[d], RunOf(Runs(m), Digit(d)).value.width)
  {
    var rs := Runs(m);
    var r := RunOf(rs, Digit(d)).value;
    var j :| 0 <= j < |rs| && rs[j] == r;
    assert DigitValue(r.marker) == d;
    FieldOfPacked(x, m, nums, p, j);
  }

  /** A bit covered by a digit run gets back the bit of x when x's own fields are packed. */
  lemma PackedOwnField(x: nat, rs: seq<Run>, k: nat, i: nat)
    requires DigitsBelow(rs, k) && LeastRepeat(rs, 10) == None && DigitRunAt(rs, i).Some?
    ensures PackedBit(x, rs, Collect(x, rs, k), i) == Bit(x, i)
  {
    var r := DigitRunAt(rs, i).value;
    OwnSlot(x, rs, k, r);
    OwnBit(x, rs, Collect(x, rs, k), i, r);
  }

  /** Bit i inside a digit run whose number is that run's own field is bit i of x. */
  lemma OwnBit(x: nat, rs: seq<Run>, nums: seq<int>, i: nat, r: Run)
    requires DigitRunAt(rs, i) == Some(r)
    requires DigitValue(r.marker) < |nums| && nums[DigitValue(r.marker)] == Field(x, r.pos, r.width)
    ensures PackedBit(x, rs, nums, i) == Bit(x, i)
  {
    var f, b := Field(x, r.pos, r.width), i - r.pos;
    FieldTruncated(x, r.pos, r.width);
    FieldBits(x, r.pos, r.width, b);
    calc {
      PackedBit(x, rs, nums, i);
      Bit(Truncate(f, r.width), b);
      Bit(f, b);
      Bit(x, r.pos + b);
      { assert r.pos + b == i; }
      Bit(x, i);
    }
  }

  /** The number collected for the digit of a run is that run's field. */
  lemma OwnSlot(x: nat, rs: seq<Run>, k: nat, r: Run)
    requires DigitsBelow(rs, k) && LeastRepeat(rs, 10) == None && r in rs && IsDigit(r.marker)
    ensures DigitValue(r.marker) < |Collect(x, rs, k)|
    ensures Collect(x, rs, k)[DigitValue(r.marker)] == Field(x, r.pos, r.width)
  {
    var j :| 0 <= j < |rs| && rs[j] == r;
    LeastRepeatSpec(rs, 10);
    UniqueRun(rs, j, Digit(DigitValue(r.marker)));
    CollectBelow(x, rs, k, k);
  }

  /** A field is already truncated to its width. */
  lemma FieldTruncated(x: nat, pos: nat, width: nat)
    ensures Truncate(Field(x, pos, width), width) == Field(x, pos, width)
  {
    var f := Field(x, pos, width);
    FieldArith(x, pos, width);
    DivModUnique(f, Pow2(width), 0, f);
  }


  /**
    `pack(x, m, *extract(x, m))` gives x back: on a mask whose digits are
    0..k-1, each marking one run, every bit of the packed value is the bit of x.
  */
  lemma PackAfterExtract(x: nat, m: string, k: nat)
    requires LeastRepeat(Runs(m), 10) == None && DigitsBelow(Runs(m), k)
    ensures Fields(x, m).Ok? && |Fields(x, m).value| == k
    ensures FirstInvalid(Runs(m), k) == None
    ensures forall i: nat :: PackedBit(x, Runs(m), Fields(x, m).value, i) == Bit(x, i)
  {
    var rs := Runs(m);
    CollectAll(x, rs, k);
    CollectBelow(x, rs, k, k);
    forall j | 0 <= j < |rs| && IsDigit(rs[j].marker) ensures DigitValue(rs[j].marker) < k {
      assert RunOf(rs, Digit(DigitValue(rs[j].marker))).Some?;
    }
    FirstInvalidSpec(rs, k);
    forall i: nat ensures PackedBit(x, rs, Collect(x, rs, k), i) == Bit(x, i) {
      if DigitRunAt(rs, i).Some? {
        PackedOwnField(x, rs, k, i);
      }
    }
  }

  /** The packed value of `PackAfterExtract`, as the two methods compute it. */
  method PackExtract(x: nat, mask: string, sep: string, k: nat) returns (r: Result<nat, MaskError>)
    requires LeastRepeat(Runs(RemoveSep(mask, sep)), 10) == None && DigitsBelow(Runs(RemoveSep(mask, sep)), k)
    ensures r == Ok(x)
  {
    var m := RemoveSep(mask, sep);
    var fields := Extract2(x, mask, sep);
    PackAfterExtract(x, m, k);
    r := Pack(x, mask, fields.value, sep);
    BitsEqual(r.value, x);
  }

  /** The numbers read back by `ExtractAfterPack`, as the two methods compute them. */
  method ExtractPack(x: nat, mask: string, nums: seq<int>, sep: string, k: nat) returns (r: Result<seq<nat>, MaskError>)
    requires FirstInvalid(Runs(RemoveSep(mask, sep)), |nums|) == None
    requires LeastRepeat(Runs(RemoveSep(mask, sep)), 10) == None && DigitsBelow(Runs(RemoveSep(mask, sep)), k)
    ensures r.Ok? && |r.value| == k
    ensures forall d :: 0 <= d < k ==>
      var width := RunOf(Runs(RemoveSep(mask, sep)), Digit(d)).value.width;
      d < |nums| && r.value[d] == Truncate(nums[d], width)
  {
    var p := Pack(x, mask, nums, sep);
    r := Extract2(p.value, mask, sep);
    ExtractAfterPack(x, RemoveSep(mask, sep), nums, p.value, k);
  }
}
