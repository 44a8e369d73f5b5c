/** What data directives emit is what their operands mean. */
module AssemblerData {
  import opened Bytes
  import opened Options
  import opened Expressions
  import opened Assembler
  import opened AssemblerProof
  import Powers

  /** The k-th group of `width` bytes. */
  function Group(bytes: seq<Byte>, width: DataWidth, k: nat): seq<Byte>
    requires k * width + width <= |bytes|
  {
    bytes[k * width..k * width + width]
  }

  lemma GroupFits(n: nat, width: DataWidth, k: nat)
    requires k < n
    ensures k * width + width <= n * width
  {
    if width == 1 {} else if width == 2 {} else if width == 4 {} else {}
  }

  /** The value of an operand in two's complement. */
  function Stored(value: int, width: DataWidth): nat
    requires DataMinimum(width) <= value < DataModulus(width)
  {
    if value < 0 then value + DataModulus(width) else value
  }

  lemma StoredBack(value: int, width: DataWidth)
    requires DataMinimum(width) <= value < DataModulus(width)
    ensures LittleEndianValue(LittleEndian(Stored(value, width), width)) == Stored(value, width)
  {
    hide LittleEndian, LittleEndianValue, Powers.Pow2;
    Powers.Pow2Bytes();
    LittleEndianBack(Stored(value, width), width);
  }

  lemma FirstGroup(first: seq<Byte>, rest: seq<Byte>, width: DataWidth)
    requires |first| == width
    ensures Group(first + rest, width, 0) == first
  {
  }

  lemma LaterGroup(first: seq<Byte>, rest: seq<Byte>, width: DataWidth, k: nat)
    requires |first| == width && k > 0 && (k - 1) * width + width <= |rest|
    ensures k * width + width <= |first + rest| && Group(first + rest, width, k) == Group(rest, width, k - 1)
  {
    OneMore(k, width);
    assert (first + rest)[width..] == rest;
    Shifted(first + rest, rest, width, (k - 1) * width, (k - 1) * width + width);
  }

  lemma Shifted(all: seq<Byte>, rest: seq<Byte>, n: nat, from: nat, to: nat)
    requires n <= |all| && all[n..] == rest && from <= to <= |rest|
    ensures all[n + from..n + to] == rest[from..to]
  {
    assert forall i :: 0 <= i < |rest| ==> rest[i] == all[n + i];
    assert all[n + from..n + to] == rest[from..to];
  }

  /** Every operand of an accepted data directive is in range, and its bytes, in its own place, read back as its
      value in two's complement. */
  lemma {:induction false} DataReadsBack(operands: seq<Operand>, width: DataWidth, symbols: Symbols, k: nat)
    requires DataValues(operands, width, symbols).Some? && k < |operands|
    ensures EvaluateOperand(operands[k], symbols).Some?
    ensures DataMinimum(width) <= EvaluateOperand(operands[k], symbols).value < DataModulus(width)
    ensures |DataValues(operands, width, symbols).value| == |operands| * width >= k * width + width
    ensures LittleEndianValue(Group(DataValues(operands, width, symbols).value, width, k))
         == Stored(EvaluateOperand(operands[k], symbols).value, width)
    decreases k
  {
    hide LittleEndian, LittleEndianValue, EvaluateOperand, Group;
    DataLength(operands, width, symbols);
    GroupFits(|operands|, width, k);
    var value := EvaluateOperand(operands[0], symbols).value;
    var first := LittleEndian(Stored(value, width), width);
    var rest := DataValues(operands[1..], width, symbols).value;
    assert DataValues(operands, width, symbols).value == first + rest;
    if k == 0 {
      StoredBack(value, width);
      FirstGroup(first, rest, width);
    } else {
      DataReadsBack(operands[1..], width, symbols, k - 1);
      LaterGroup(first, rest, width, k);
    }
  }

  lemma WidthBounds(width: DataWidth)
    ensures DataModulus(width) == Powers.Pow2(8 * width) && DataMinimum(width) == 0 - Powers.Pow2(8 * width - 1)
  {
    hide Powers.Pow2;
    Powers.Pow2Bytes();
    Powers.Pow2Single();
    Powers.Pow2Double();
    Powers.Pow2Next(15);
  }

  /** A data directive of w bytes is accepted exactly when every operand has a value from -2^(8w-1) to 2^(8w) - 1. */
  lemma {:induction false} DataAcceptedIff(operands: seq<Operand>, width: DataWidth, symbols: Symbols)
    ensures DataValues(operands, width, symbols).Some?
       <==> forall k :: 0 <= k < |operands| ==>
              EvaluateOperand(operands[k], symbols).Some?
              && 0 - Powers.Pow2(8 * width - 1) <= EvaluateOperand(operands[k], symbols).value < Powers.Pow2(8 * width)
    decreases |operands|
  {
    hide LittleEndian, EvaluateOperand, Powers.Pow2;
    WidthBounds(width);
    if operands != [] {
      DataAcceptedIff(operands[1..], width, symbols);
      assert operands == [operands[0]] + operands[1..];
    }
  }

  // ---- strings ----

  /** Where the k-th string of a directive starts: behind the strings before it, each with its terminator if it has one. */
  function TextOffset(operands: seq<Operand>, terminated: bool, k: nat): nat
    requires k <= |operands|
  {
    if k == 0 then 0
    else
      TextOffset(operands, terminated, k - 1)
      + (if operands[k - 1].Text? then |operands[k - 1].bytes| + (if terminated then 1 else 0) else 0)
  }

  lemma {:induction false} OffsetShift(operands: seq<Operand>, terminated: bool, k: nat)
    requires 0 < k <= |operands|
    ensures TextOffset(operands, terminated, k) == TextOffset(operands, terminated, 1) + TextOffset(operands[1..], terminated, k - 1)
    decreases k
  {
    if k > 1 { OffsetShift(operands, terminated, k - 1); }
  }

  /** The string and its terminator, if it has one, stand at this place. */
  predicate TextAt(all: seq<Byte>, from: nat, text: seq<Byte>, terminated: bool)
  {
    && from + |text| + (if terminated then 1 else 0) <= |all|
    && all[from..from + |text|] == text
    && (terminated ==> all[from + |text|] == 0)
  }

  lemma TextShifted(all: seq<Byte>, rest: seq<Byte>, n: nat, from: nat, text: seq<Byte>, terminated: bool)
    requires n <= |all| && all[n..] == rest && TextAt(rest, from, text, terminated)
    ensures TextAt(all, n + from, text, terminated)
  {
    Shifted(all, rest, n, from, from + |text|);
    if terminated { assert rest[from + |text|] == all[n + (from + |text|)]; }
  }

  /** Every operand of an accepted string directive is a string. Its bytes stand at its offset, a zero right behind them
      when the directive terminates its strings, and nothing else is emitted. */
  lemma {:induction false} StringsReadBack(operands: seq<Operand>, terminated: bool, k: nat)
    requires StringValues(operands, terminated).Some? && k < |operands|
    ensures operands[k].Text?
    ensures |StringValues(operands, terminated).value| == TextOffset(operands, terminated, |operands|)
    ensures TextAt(StringValues(operands, terminated).value, TextOffset(operands, terminated, k), operands[k].bytes, terminated)
    decreases |operands|
  {
    hide TextAt, TextOffset;
    var rest := StringValues(operands[1..], terminated).value;
    var all := StringValues(operands, terminated).value;
    var first := operands[0].bytes + if terminated then [0] else [];
    assert all == first + rest;
    StringsLength(operands, terminated);
    FirstOffset(operands, terminated);
    if k > 0 {
      StringsReadBack(operands[1..], terminated, k - 1);
      OffsetShift(operands, terminated, k);
      TextShifted(all, rest, |first|, TextOffset(operands[1..], terminated, k - 1), operands[k].bytes, terminated);
    } else {
      FirstText(operands[0].bytes, terminated, rest);
    }
  }

  lemma FirstOffset(operands: seq<Operand>, terminated: bool)
    requires operands != [] && operands[0].Text?
    ensures TextOffset(operands, terminated, 0) == 0
    ensures TextOffset(operands, terminated, 1) == |operands[0].bytes| + (if terminated then 1 else 0)
  {
  }

  lemma FirstText(text: seq<Byte>, terminated: bool, rest: seq<Byte>)
    ensures TextAt(text + (if terminated then [0] else []) + rest, 0, text, terminated)
  {
  }

  lemma {:induction false} StringsLength(operands: seq<Operand>, terminated: bool)
    requires StringValues(operands, terminated).Some?
    ensures |StringValues(operands, terminated).value| == TextOffset(operands, terminated, |operands|)
    decreases |operands|
  {
    if operands != [] {
      StringsLength(operands[1..], terminated);
      OffsetShift(operands, terminated, |operands|);
    }
  }

  // ---- floating-point literals ----

  /** The bits of every literal of a floating-point directive stand little-endian in the literal's own place. */
  lemma {:induction false} FloatsReadBack(operands: seq<Operand>, width: FloatWidth, target: Target, k: nat)
    requires FloatValues(operands, width, target).Some? && k < |operands|
    ensures target.floatBits(width, operands[k]).Some?
    ensures |FloatValues(operands, width, target).value| == |operands| * width >= k * width + width
    ensures var bits := target.floatBits(width, operands[k]).value;
            bits < Powers.Pow2(8 * width) ==>
              LittleEndianValue(FloatValues(operands, width, target).value[k * width..k * width + width]) == bits
    decreases k
  {
    hide LittleEndian, LittleEndianValue, Powers.Pow2;
    FloatLength(operands, width, target);
    FloatFits(|operands|, width, k);
    var bits := target.floatBits(width, operands[0]).value;
    var first := LittleEndian(bits, width);
    var rest := FloatValues(operands[1..], width, target).value;
    var all := FloatValues(operands, width, target).value;
    assert all == first + rest;
    if k == 0 {
      assert all[0 * width..0 * width + width] == first;
      if bits < Powers.Pow2(8 * width) { LittleEndianBack(bits, width); }
    } else {
      FloatsReadBack(operands[1..], width, target, k - 1);
      Shifted(all, rest, width, (k - 1) * width, (k - 1) * width + width);
      assert k * width == width + (k - 1) * width;
    }
  }

  lemma FloatFits(n: nat, width: FloatWidth, k: nat)
    requires k < n
    ensures k * width + width <= n * width
  {
    if width == 2 {} else if width == 4 {} else if width == 8 {} else {}
  }

  lemma {:induction false} FloatLength(operands: seq<Operand>, width: FloatWidth, target: Target)
    requires FloatValues(operands, width, target).Some?
    ensures |FloatValues(operands, width, target).value| == |operands| * width
    decreases |operands|
  {
    hide LittleEndian;
    if operands != [] {
      FloatLength(operands[1..], width, target);
      assert |operands| * width == width + (|operands| - 1) * width;
    }
  }
}
