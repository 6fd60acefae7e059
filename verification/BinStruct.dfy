/**
 * Bit-granular packing of numbers and strings (packet.py). Shifts and masks are written as
 * multiplication, division and remainder by powers of two: on Python's integers they agree,
 * for negative numbers too.
 */
module BinStruct {
  import opened Collections
  import opened Bytes

  datatype Value = Nothing | Num(n: int) | Str(s: seq<byte>)

  datatype Error = AssertionError | IndexError | TypeError

  datatype Kind = Number | Binary

  datatype Field = Field(width: nat, kind: Kind)

  function Pow2(n: nat): (r: nat)
    ensures r > 0
  {
    if n == 0 then 1 else 2 * Pow2(n - 1)
  }

  /** The number whose big-endian bytes are `s`. */
  function BigEndian(s: seq<byte>): nat {
    if s == [] then 0 else 256 * BigEndian(s[..|s| - 1]) + s[|s| - 1] as nat
  }

  /** The last `n` big-endian bytes of `val`. */
  function LastBytes(val: int, n: nat): (s: seq<byte>)
    decreases n
    ensures |s| == n
  {
    if n == 0 then [] else LastBytes(val / 256, n - 1) + [(val % 256) as byte]
  }

  /**
   * The number in the first p bytes of a string, followed by the low `rem` bits of the next
   * byte when `rem` is not 0.
   */
  function FromBits(s: seq<byte>, p: nat, rem: nat): nat
    requires |s| >= Needed(p, rem)
  {
    if rem == 0 then BigEndian(s[..p])
    else BigEndian(s[..p]) * Pow2(rem) + s[p] as nat % Pow2(rem)
  }

  /** The string laid out so whose bits are the low bits of `val`. */
  function ToBits(val: int, p: nat, rem: nat): (s: seq<byte>)
    requires rem < 8
    ensures |s| == Needed(p, rem)
  {
    if rem == 0 then LastBytes(val, p)
    else
      Pow2Below8(rem);
      LastBytes(val / Pow2(rem), p) + [(val % Pow2(rem)) as byte]
  }

  function Needed(p: nat, rem: nat): nat {
    if rem == 0 then p else p + 1
  }

  /** A string of the exact size, with the unused bits of a partial byte zero. */
  predicate Tidy(s: seq<byte>, p: nat, rem: nat) {
    |s| == Needed(p, rem) && (rem == 0 || s[p] as nat < Pow2(rem))
  }

  lemma Pow2Below8(n: nat)
    requires n < 8
    ensures Pow2(n) <= 128
  {
    Pow2Sum(n, 7 - n);
    assert Pow2(4) == 16;
    assert Pow2(7) == 128;
    assert Pow2(n) * Pow2(7 - n) >= Pow2(n);
  }

  lemma {:induction false} Pow2Sum(a: nat, b: nat)
    ensures Pow2(a + b) == Pow2(a) * Pow2(b)
  {
    if b == 0 {
    } else {
      Pow2Sum(a, b - 1);
    }
  }

  lemma Distribute(q: int, q': int, m: int)
    ensures (q - q') * m == q * m - q' * m
  {
  }

  lemma AtLeast(d: int, m: int)
    requires d >= 1 && m >= 0
    ensures d * m >= m
  {
  }

  lemma QuotientNat(x: nat, m: nat)
    requires m > 0
    ensures x / m >= 0
  {
  }

  lemma QuotientUnique(q: int, r: int, q': int, r': int, m: int)
    requires q * m + r == q' * m + r' && 0 <= r < m && 0 <= r' < m
    ensures q == q' && r == r'
  {
    Distribute(q, q', m);
    Distribute(q', q, m);
    if q > q' {
      AtLeast(q - q', m);
    } else if q < q' {
      AtLeast(q' - q, m);
    }
  }

  lemma Joined(x: int, y: nat, m: nat)
    requires y < m
    ensures (x * m + y) / m == x && (x * m + y) % m == y
  {
    var z := x * m + y;
    QuotientUnique(z / m, z % m, x, y, m);
  }

  /** The low bits of a number, in two parts. */
  lemma LowBits(val: int, hi: nat, lo: nat)
    requires hi > 0 && lo > 0
    ensures hi * lo > 0 && val % (hi * lo) == (val / lo) % hi * lo + val % lo
  {
    var q, r := val / lo, val % lo;
    var high, low := q / hi, q % hi;
    assert val == q * lo + r && q == high * hi + low;
    assert val == high * (hi * lo) + (low * lo + r) by {
      assert (high * hi + low) * lo == high * (hi * lo) + low * lo;
    }
    AtMost(low, r, hi, lo);
    Joined(high, low * lo + r, hi * lo);
  }

  lemma {:induction false} BigEndianOfLastBytes(val: int, n: nat)
    ensures BigEndian(LastBytes(val, n)) == val % Pow2(8 * n)
    decreases n
  {
    if n == 0 {
    } else {
      var s := LastBytes(val, n);
      assert s[..n - 1] == LastBytes(val / 256, n - 1);
      BigEndianOfLastBytes(val / 256, n - 1);
      Pow2Sum(8 * (n - 1), 8);
      assert Pow2(8) == 256;
      LowBits(val, Pow2(8 * (n - 1)), 256);
    }
  }

  lemma {:induction false} LastBytesOfBigEndian(s: seq<byte>)
    ensures LastBytes(BigEndian(s), |s|) == s
  {
    if s == [] {
    } else {
      LastBytesOfBigEndian(s[..|s| - 1]);
    }
  }

  /** The two conversions are inverse: a number keeps its low bits... */
  lemma FromToBits(val: int, p: nat, rem: nat)
    requires rem < 8
    ensures FromBits(ToBits(val, p, rem), p, rem) == val % Pow2(8 * p + rem)
  {
    var high := LastBytes(val / Pow2(rem), p);
    assert ToBits(val, p, rem)[..p] == high;
    BigEndianOfLastBytes(val / Pow2(rem), p);
    if rem > 0 {
      Pow2Below8(rem);
      Pow2Sum(8 * p, rem);
      LowBits(val, Pow2(8 * p), Pow2(rem));
      SmallMod(val % Pow2(rem), Pow2(rem));
    }
  }

  lemma SmallMod(x: nat, m: nat)
    requires x < m
    ensures x % m == x
  {
  }

  /** ...and a string comes back exactly when it has the right size and no stray bits. */
  lemma ToFromBits(s: seq<byte>, p: nat, rem: nat)
    requires rem < 8 && |s| >= Needed(p, rem)
    ensures ToBits(FromBits(s, p, rem), p, rem) == s <==> Tidy(s, p, rem)
    ensures FromBits(s, p, rem) == FromBits(s[..Needed(p, rem)], p, rem) < Pow2(8 * p + rem)
  {
    assert s[..Needed(p, rem)][..p] == s[..p];
    BigEndianBound(s[..p]);
    LastBytesOfBigEndian(s[..p]);
    if rem > 0 {
      Pow2Below8(rem);
      Pow2Sum(8 * p, rem);
      var high, low := BigEndian(s[..p]), s[p] as nat % Pow2(rem);
      Joined(high, low, Pow2(rem));
      AtMost(high, low, Pow2(8 * p), Pow2(rem));
      LastOnly(s, p, low);
      if s[p] as nat < Pow2(rem) {
        SmallMod(s[p] as nat, Pow2(rem));
      }
    }
  }

  lemma AtMost(high: nat, low: nat, hi: nat, lo: nat)
    requires high < hi && low < lo
    ensures high * lo + low < hi * lo
  {
    Distribute(hi, high, lo);
    AtLeast(hi - high, lo);
  }

  lemma LastOnly(s: seq<byte>, p: nat, last: nat)
    requires p < |s| && last < 256
    ensures s[..p] + [last as byte] == s <==> |s| == p + 1 && s[p] as nat == last
  {
    if s[..p] + [last as byte] == s {
      assert s[p] == (s[..p] + [last as byte])[p];
    }
  }

  lemma {:induction false} BigEndianBound(s: seq<byte>)
    ensures BigEndian(s) < Pow2(8 * |s|)
  {
    if s == [] {
    } else {
      BigEndianBound(s[..|s| - 1]);
      Pow2Sum(8 * (|s| - 1), 8);
      assert Pow2(8) == 256;
    }
  }

  /** `not data`, in Python's terms. */
  predicate Falsy(data: Value) {
    data == Nothing || data == Num(0) || data == Str([])
  }

  /** ord(data[i]) */
  function ByteAt(data: Value, i: nat): Result<byte, Error> {
    if !data.Str? then Err(TypeError) else if i < |data.s| then Ok(data.s[i]) else Err(IndexError)
  }

  /** What str2num makes of a value. */
  function Read(data: Value, width: nat): Result<nat, Error> {
    if Falsy(data) || width == 0 then Ok(0)
    else if !data.Str? then Err(TypeError)
    else if |data.s| < Needed(width / 8, width % 8) then Err(IndexError)
    else Ok(FromBits(data.s, width / 8, width % 8))
  }

  method Str2Num(data: Value, width: nat) returns (r: Result<nat, Error>)
    ensures r == Read(data, width)
  {
    if Falsy(data) {
      return Ok(0);
    }
    var len, rem := width / 8, width % 8;
    var val: nat := 0;
    for i := 0 to len
      invariant i > 0 ==> data.Str? && i <= |data.s|
      invariant val == if i == 0 then 0 else BigEndian(data.s[..i])
    {
      var b := ByteAt(data, i);
      if b.Err? {
        return Err(b.error);
      }
      assert data.s[..i + 1][..i] == data.s[..i];
      val := val * 256 + b.value as nat;
    }
    if rem != 0 {
      var b := ByteAt(data, len);
      if b.Err? {
        return Err(b.error);
      }
      val := val * Pow2(rem) + b.value as nat % Pow2(rem);
    }
    return Ok(val);
  }

  method Num2Str(number: int, width: nat) returns (s: seq<byte>)
    ensures s == ToBits(number, width / 8, width % 8)
  {
    var val := number;
    var result := new byte[(width + 7) / 8];
    var p, rem := width / 8, width % 8;
    if rem != 0 {
      Pow2Below8(rem);
      result[p] := (val % Pow2(rem)) as byte;
      val := val / Pow2(rem);
    }
    ghost var high, last := LastBytes(val, p), result[p..];
    while p > 0
      invariant p <= width / 8 && high == LastBytes(val, p) + result[p..width / 8]
      invariant result[width / 8..] == last
    {
      p := p - 1;
      result[p] := (val % 256) as byte;
      val := val / 256;
    }
    s := result[..];
    assert s == result[..width / 8] + result[width / 8..];
  }

  /** A value as the number that its field holds, before it is cut to the field's width. */
  function Encode(v: Value, f: Field): Result<int, Error> {
    match f.kind
    case Number => if Falsy(v) then Ok(0) else if v.Num? then Ok(v.n) else Err(TypeError)
    case Binary =>
      match Read(v, f.width)
      case Ok(n) => Ok(n)
      case Err(e) => Err(e)
  }

  function Decode(n: nat, f: Field): Value {
    match f.kind
    case Number => Num(n)
    case Binary => Str(ToBits(n, f.width / 8, f.width % 8))
  }

  /** A value that its field can hold as it is. */
  predicate Fits(v: Value, f: Field) {
    match f.kind
    case Number => v.Num? && 0 <= v.n < Pow2(f.width)
    case Binary => v.Str? && Tidy(v.s, f.width / 8, f.width % 8)
  }

  function TotalWidth(fields: seq<Field>): nat {
    if fields == [] then 0 else TotalWidth(fields[..|fields| - 1]) + fields[|fields| - 1].width
  }

  /** x & ((1 << width) - 1) */
  function Masked(x: int, width: nat): (r: nat)
    ensures r < Pow2(width)
  {
    x % Pow2(width)
  }

  /** (val << width) | slot */
  function Beside(val: nat, width: nat, slot: nat): nat {
    val * Pow2(width) + slot
  }

  /** The number of every field, cut to its width; the first value that cannot be read fails. */
  function Slots(fields: seq<Field>, values: seq<Value>): (r: Result<seq<nat>, Error>)
    requires |values| == |fields|
    ensures r.Ok? ==> |r.value| == |fields| && forall i :: 0 <= i < |fields| ==> r.value[i] < Pow2(fields[i].width)
  {
    if fields == [] then Ok([])
    else
      var last := |fields| - 1;
      match Slots(fields[..last], values[..last])
      case Err(e) => Err(e)
      case Ok(ns) =>
        match Encode(values[last], fields[last])
        case Err(e) => Err(e)
        case Ok(x) => Ok(ns + [Masked(x, fields[last].width)])
  }

  /** The fields side by side, the first in the highest bits. */
  function Join(fields: seq<Field>, slots: seq<nat>): nat
    requires |slots| == |fields|
  {
    if fields == [] then 0
    else
      var last := |fields| - 1;
      Beside(Join(fields[..last], slots[..last]), fields[last].width, slots[last])
  }

  /** val >> width */
  function High(val: nat, width: nat): nat {
    QuotientNat(val, Pow2(width));
    val / Pow2(width)
  }

  function Split(fields: seq<Field>, val: nat): (values: seq<Value>)
    ensures |values| == |fields|
    decreases fields
  {
    if fields == [] then []
    else
      var last := |fields| - 1;
      Split(fields[..last], High(val, fields[last].width)) + [Decode(Masked(val, fields[last].width), fields[last])]
  }

  function PackOf(fields: seq<Field>, values: seq<Value>): Result<seq<byte>, Error> {
    if |values| != |fields| then Err(AssertionError)
    else
      match Slots(fields, values)
      case Err(e) => Err(e)
      case Ok(slots) => Ok(ToBits(Join(fields, slots), TotalWidth(fields) / 8, TotalWidth(fields) % 8))
  }

  function UnpackOf(fields: seq<Field>, data: seq<byte>): Result<seq<Value>, Error> {
    var p, rem := TotalWidth(fields) / 8, TotalWidth(fields) % 8;
    if |data| < Needed(p, rem) then Err(AssertionError) else Ok(Split(fields, FromBits(data, p, rem)))
  }

  function Reversed(fields: seq<Field>): (r: seq<Field>)
    ensures |r| == |fields| && forall i :: 0 <= i < |r| ==> r[i] == fields[|fields| - 1 - i]
  {
    seq(|fields|, i requires 0 <= i < |fields| => fields[|fields| - 1 - i])
  }

  class BinStruct {
    const format: seq<Field>  // the last field first
    const width: nat

    /** The fields of the format string, inserted at the front one after the other. */
    constructor (fields: seq<Field>)
      ensures Fields() == fields && Valid()
    {
      var reversed, total: nat := [], 0;
      for i := 0 to |fields|
        invariant reversed == Reversed(fields[..i])
        invariant total == TotalWidth(fields[..i])
      {
        reversed := [fields[i]] + reversed;
        total := total + fields[i].width;
        assert fields[..i + 1][..i] == fields[..i];
      }
      assert fields[..|fields|] == fields;
      format, width := reversed, total;
      new;
      assert Fields() == fields;
    }

    ghost function Fields(): seq<Field> {
      Reversed(format)
    }

    ghost predicate Valid() {
      width == TotalWidth(Fields())
    }

    method Pack(values: seq<Value>) returns (r: Result<seq<byte>, Error>)
      requires Valid()
      ensures r == PackOf(Fields(), values)
    {
      hide Slots, Join, Encode, Pow2, ToBits, Masked, Beside, PackOf, TotalWidth;
      ghost var fields := Fields();
      PackJoins(fields, values);
      if |values| != |format| {
        return Err(AssertionError);
      }
      var val: nat := 0;
      var pos := |format|;
      ghost var slots := [];
      NoSlots();
      assert fields[..0] == [] && values[..0] == [];
      for i := 0 to |values|
        invariant pos == |format| - i
        invariant Slots(fields[..i], values[..i]) == Ok(slots)
        invariant val == Join(fields[..i], slots)
      {
        pos := pos - 1;
        var field := format[pos];
        NextSlot(fields, values, i, slots);
        var x := Encode(values[i], field);
        if x.Err? {
          FirstErrorFails(fields, values, i + 1);
          return Err(x.error);
        }
        val := Beside(val, field.width, Masked(x.value, field.width));
        slots := slots + [Masked(x.value, field.width)];
      }
      assert fields[..|values|] == fields && values[..|values|] == values;
      var s := Num2Str(val, width);
      return Ok(s);
    }

    method Unpack(data: seq<byte>) returns (r: Result<seq<Value>, Error>)
      requires Valid()
      ensures r == UnpackOf(Fields(), data)
    {
      hide Decode, Masked, High, Read, UnpackOf, TotalWidth;
      ghost var fields := Fields();
      UnpackReads(fields, data, width);
      assert fields[..|fields|] == fields;
      if |data| < (width + 7) / 8 {
        return Err(AssertionError);
      }
      var read := Str2Num(Str(data), width);
      var val: nat := read.value;
      var pos := |format|;
      var result: seq<Value> := seq(pos, _ => Nothing);
      for i := 0 to |format|
        invariant pos == |format| - i && |result| == |format|
        invariant Split(fields, read.value) == Split(fields[..pos], val) + result[pos..]
      {
        pos := pos - 1;
        var field := format[i];
        assert fields[..pos + 1][..pos] == fields[..pos];
        result := result[pos := Decode(Masked(val, field.width), field)];
        val := High(val, field.width);
      }
      assert Split(fields[..pos], val) == [] && result[pos..] == result;
      assert result == Split(fields, read.value);
      return Ok(result);
    }
  }

  lemma PackJoins(fields: seq<Field>, values: seq<Value>)
    ensures |values| != |fields| ==> PackOf(fields, values) == Err(AssertionError)
    ensures |values| == |fields| && Slots(fields, values).Err? ==>
      PackOf(fields, values) == Err(Slots(fields, values).error)
    ensures |values| == |fields| && Slots(fields, values).Ok? ==>
      PackOf(fields, values) ==
        Ok(ToBits(Join(fields, Slots(fields, values).value), TotalWidth(fields) / 8, TotalWidth(fields) % 8))
  {
  }

  lemma NoSlots()
    ensures Slots([], []) == Ok([]) && Join([], []) == 0
  {
  }

  /** One more field, below those so far. */
  lemma NextSlot(fields: seq<Field>, values: seq<Value>, i: nat, slots: seq<nat>)
    requires i < |fields| == |values| && Slots(fields[..i], values[..i]) == Ok(slots) && |slots| == i
    ensures var x := Encode(values[i], fields[i]); var w := fields[i].width;
      if x.Err? then Slots(fields[..i + 1], values[..i + 1]) == Err(x.error)
      else
        && Slots(fields[..i + 1], values[..i + 1]) == Ok(slots + [Masked(x.value, w)])
        && Join(fields[..i + 1], slots + [Masked(x.value, w)]) == Beside(Join(fields[..i], slots), w, Masked(x.value, w))
  {
    hide Encode, Pow2, Masked, Beside;
    assert fields[..i + 1][..i] == fields[..i] && values[..i + 1][..i] == values[..i];
    if Encode(values[i], fields[i]).Ok? {
      var x := Masked(Encode(values[i], fields[i]).value, fields[i].width);
      assert (slots + [x])[..i] == slots;
    }
  }

  lemma UnpackReads(fields: seq<Field>, data: seq<byte>, width: nat)
    requires width == TotalWidth(fields)
    ensures |data| < (width + 7) / 8 ==> UnpackOf(fields, data) == Err(AssertionError)
    ensures |data| >= (width + 7) / 8 ==>
      Read(Str(data), width).Ok? && UnpackOf(fields, data) == Ok(Split(fields, Read(Str(data), width).value))
  {
  }

  lemma {:induction false} FirstErrorFails(fields: seq<Field>, values: seq<Value>, n: nat)
    requires n <= |values| == |fields| && Slots(fields[..n], values[..n]).Err?
    ensures Slots(fields, values) == Slots(fields[..n], values[..n])
  {
    var last := |fields| - 1;
    if n <= last {
      assert fields[..last][..n] == fields[..n] && values[..last][..n] == values[..n];
      FirstErrorFails(fields[..last], values[..last], n);
    } else {
      assert fields[..n] == fields && values[..n] == values;
    }
  }

  /** A field gives back the value it was given exactly when the value fits. */
  lemma DecodeEncode(v: Value, f: Field)
    ensures Fits(v, f) ==> Encode(v, f).Ok?
    ensures Encode(v, f).Ok? ==> (Decode(Masked(Encode(v, f).value, f.width), f) == v <==> Fits(v, f))
  {
    var p, rem := f.width / 8, f.width % 8;
    if Encode(v, f).Ok? {
      var x := Encode(v, f).value;
      if f.kind == Binary {
        if v.Str? && |v.s| >= Needed(p, rem) {
          ToFromBits(v.s, p, rem);
          SmallMod(FromBits(v.s, p, rem), Pow2(f.width));
        }
      } else if 0 <= x < Pow2(f.width) {
        SmallMod(x, Pow2(f.width));
      }
    }
  }

  /** What a field gives out, it takes back. */
  lemma EncodeDecode(n: nat, f: Field)
    requires n < Pow2(f.width)
    ensures Encode(Decode(n, f), f) == Ok(n)
  {
    FromToBits(n, f.width / 8, f.width % 8);
    SmallMod(n, Pow2(f.width));
  }

  lemma {:induction false} JoinBound(fields: seq<Field>, slots: seq<nat>)
    requires |slots| == |fields| && forall i :: 0 <= i < |fields| ==> slots[i] < Pow2(fields[i].width)
    ensures Join(fields, slots) < Pow2(TotalWidth(fields))
  {
    if fields == [] {
    } else {
      var last := |fields| - 1;
      JoinBound(fields[..last], slots[..last]);
      Pow2Sum(TotalWidth(fields[..last]), fields[last].width);
      AtMost(Join(fields[..last], slots[..last]), slots[last],
             Pow2(TotalWidth(fields[..last])), Pow2(fields[last].width));
    }
  }

  lemma HighLow(x: nat, y: nat, width: nat)
    requires y < Pow2(width)
    ensures High(Beside(x, width, y), width) == x && Masked(Beside(x, width, y), width) == y
  {
    Joined(x, y, Pow2(width));
  }

  lemma {:induction false} SplitJoin(fields: seq<Field>, slots: seq<nat>)
    requires |slots| == |fields| && forall i :: 0 <= i < |fields| ==> slots[i] < Pow2(fields[i].width)
    ensures forall i :: 0 <= i < |fields| ==> Split(fields, Join(fields, slots))[i] == Decode(slots[i], fields[i])
  {
    hide High, Masked, Pow2, Decode, Beside;
    if fields == [] {
    } else {
      var last := |fields| - 1;
      SplitJoin(fields[..last], slots[..last]);
      HighLow(Join(fields[..last], slots[..last]), slots[last], fields[last].width);
    }
  }

  lemma {:induction false} SlotsAre(fields: seq<Field>, values: seq<Value>)
    requires |values| == |fields|
    ensures Slots(fields, values).Ok? <==> forall i :: 0 <= i < |fields| ==> Encode(values[i], fields[i]).Ok?
    ensures Slots(fields, values).Ok? ==> forall i :: 0 <= i < |fields| ==>
      Encode(values[i], fields[i]).Ok? &&
      Slots(fields, values).value[i] == Masked(Encode(values[i], fields[i]).value, fields[i].width)
  {
    hide Encode, Pow2;
    if fields == [] {
    } else {
      SlotsAre(fields[..|fields| - 1], values[..|fields| - 1]);
    }
  }

  /** Packing and unpacking gives the same values back exactly when every value fits its field. */
  lemma UnpackPack(fields: seq<Field>, values: seq<Value>)
    requires |values| == |fields|
    ensures (forall i :: 0 <= i < |fields| ==> Fits(values[i], fields[i])) <==>
      PackOf(fields, values).Ok? && UnpackOf(fields, PackOf(fields, values).value) == Ok(values)
  {
    hide Encode, Decode, Fits, ToBits, FromBits, Split, Join;
    SlotsAre(fields, values);
    forall i | 0 <= i < |fields|
      ensures Fits(values[i], fields[i]) ==> Encode(values[i], fields[i]).Ok?
      ensures Encode(values[i], fields[i]).Ok? ==>
        (Decode(Masked(Encode(values[i], fields[i]).value, fields[i].width), fields[i]) == values[i]
         <==> Fits(values[i], fields[i]))
    {
      DecodeEncode(values[i], fields[i]);
    }
    if Slots(fields, values).Ok? {
      UnpackPacked(fields, values);
      var got := UnpackOf(fields, PackOf(fields, values).value).value;
      assert forall i :: 0 <= i < |fields| ==> (got[i] == values[i] <==> Fits(values[i], fields[i]));
      if forall i :: 0 <= i < |fields| ==> Fits(values[i], fields[i]) {
        assert got == values;
      }
    }
  }

  lemma UnpackPacked(fields: seq<Field>, values: seq<Value>)
    requires |values| == |fields| && Slots(fields, values).Ok?
    ensures PackOf(fields, values).Ok?
    ensures UnpackOf(fields, PackOf(fields, values).value).Ok?
    ensures forall i :: 0 <= i < |fields| ==>
      UnpackOf(fields, PackOf(fields, values).value).value[i] == Decode(Slots(fields, values).value[i], fields[i])
  {
    hide Slots, Decode, Pow2, Join;
    var slots := Slots(fields, values).value;
    var w := TotalWidth(fields);
    FromToBits(Join(fields, slots), w / 8, w % 8);
    JoinBound(fields, slots);
    SmallMod(Join(fields, slots), Pow2(w));
    SplitJoin(fields, slots);
  }

  lemma {:induction false} JoinSplit(fields: seq<Field>, val: nat)
    ensures Slots(fields, Split(fields, val)).Ok?
    ensures Join(fields, Slots(fields, Split(fields, val)).value) == val % Pow2(TotalWidth(fields))
    decreases fields
  {
    if fields == [] {
    } else {
      var last := |fields| - 1;
      var w := fields[last].width;
      JoinSplit(fields[..last], High(val, w));
      assert Split(fields, val)[..last] == Split(fields[..last], High(val, w));
      EncodeDecode(Masked(val, w), fields[last]);
      SmallMod(Masked(val, w), Pow2(w));
      Pow2Sum(TotalWidth(fields[..last]), w);
      LowBits(val, Pow2(TotalWidth(fields[..last])), Pow2(w));
    }
  }

  /**
   * Unpacking and packing gives the same string back exactly when it has the size of the
   * struct and the unused bits of its last byte are zero. When the total width is a multiple
   * of 8 there are no unused bits, and the size alone decides.
   */
  lemma PackUnpack(fields: seq<Field>, data: seq<byte>)
    requires |data| >= (TotalWidth(fields) + 7) / 8
    ensures UnpackOf(fields, data).Ok? && PackOf(fields, UnpackOf(fields, data).value).Ok?
    ensures PackOf(fields, UnpackOf(fields, data).value).value == data <==>
      Tidy(data, TotalWidth(fields) / 8, TotalWidth(fields) % 8)
    ensures TotalWidth(fields) % 8 == 0 ==>
      (PackOf(fields, UnpackOf(fields, data).value).value == data <==> |data| == (TotalWidth(fields) + 7) / 8)
  {
    hide Slots, Split, Join, ToBits, FromBits;
    var w := TotalWidth(fields);
    ToFromBits(data, w / 8, w % 8);
    assert 8 * (w / 8) + w % 8 == w;
    JoinSplit(fields, FromBits(data, w / 8, w % 8));
    SmallMod(FromBits(data, w / 8, w % 8), Pow2(w));
  }

  //
  // What comes back of any values, and which are refused
  //

  /** The first byte is the most significant. */
  lemma {:induction false} FirstByteHighest(s: seq<byte>)
    requires s != []
    ensures BigEndian(s) == s[0] as nat * Pow2(8 * (|s| - 1)) + BigEndian(s[1..])
  {
    var last := |s| - 1;
    if last == 0 {
    } else {
      FirstByteHighest(s[..last]);
      assert s[..last][1..] == s[1..][..last - 1];
      assert Pow2(8 * last) == 256 * Pow2(8 * (last - 1)) by {
        Pow2Sum(8 * (last - 1), 8);
        assert Pow2(8) == 256;
      }
      hide Pow2;
      var high, others := Pow2(8 * (last - 1)), BigEndian(s[1..last]);
      Spread(s[0] as nat, high, others, 256, 256 * high);
      assert s[..last][1..] == s[1..last] == s[1..][..last - 1];
    }
  }

  /** The first field is in the highest bits. */
  lemma {:induction false} FirstFieldHighest(fields: seq<Field>, slots: seq<nat>)
    requires |slots| == |fields| && fields != []
    ensures Join(fields, slots) == slots[0] * Pow2(TotalWidth(fields[1..])) + Join(fields[1..], slots[1..])
  {
    var last := |fields| - 1;
    hide Pow2, Beside;
    if last == 0 {
      assert fields[..0] == [] && slots[..0] == [] && fields[1..] == [] && slots[1..] == [];
      OnlyField(fields, slots);
    } else {
      var w := fields[last].width;
      FirstFieldHighest(fields[..last], slots[..last]);
      assert fields[..last][1..] == fields[1..][..last - 1] && slots[..last][1..] == slots[1..][..last - 1];
      Widened(slots[0], TotalWidth(fields[..last][1..]), Join(fields[..last][1..], slots[..last][1..]), w, slots[last]);
    }
  }

  lemma OnlyField(fields: seq<Field>, slots: seq<nat>)
    requires |fields| == |slots| == 1
    ensures Join(fields, slots) == slots[0] * Pow2(TotalWidth([])) + Join([], [])
  {
    assert fields[..0] == [] && slots[..0] == [];
  }

  lemma Widened(first: nat, high: nat, others: nat, width: nat, slot: nat)
    ensures Beside(first * Pow2(high) + others, width, slot) == first * Pow2(high + width) + Beside(others, width, slot)
  {
    Pow2Sum(high, width);
    Spread(first, Pow2(high), others, Pow2(width), Pow2(high + width));
  }

  lemma Spread(x: nat, h: nat, y: nat, m: nat, hm: nat)
    requires hm == h * m
    ensures (x * h + y) * m == x * hm + y * m
  {
    assert (x * h) * m == x * (h * m);
  }

  /** A value is refused by its field: a string as a number, a number as a string, or too short a string. */
  function Refusal(v: Value, f: Field): Option<Error> {
    if f.kind == Number then (if v.Str? && v.s != [] then Some(TypeError) else None)
    else if f.width == 0 then None
    else if v.Num? && v.n != 0 then Some(TypeError)
    else if v.Str? && v.s != [] && |v.s| < (f.width + 7) / 8 then Some(IndexError)
    else None
  }

  predicate FirstRefused(fields: seq<Field>, values: seq<Value>, i: nat)
    requires |values| == |fields|
  {
    && i < |fields| && Refusal(values[i], fields[i]) != None
    && forall j :: 0 <= j < i ==> Refusal(values[j], fields[j]) == None
  }

  lemma EncodeRefuses(v: Value, f: Field)
    ensures Encode(v, f).Ok? <==> Refusal(v, f) == None
    ensures Encode(v, f).Err? ==> Refusal(v, f) == Some(Encode(v, f).error)
  {
  }

  /** Packing fails exactly when some value is refused, with the error of the first such value. */
  lemma {:induction false} PackRefusedExactlyWhen(fields: seq<Field>, values: seq<Value>)
    requires |values| == |fields|
    ensures PackOf(fields, values).Ok? <==> forall i :: 0 <= i < |fields| ==> Refusal(values[i], fields[i]) == None
    ensures forall i: nat :: FirstRefused(fields, values, i) ==>
      PackOf(fields, values) == Err(Refusal(values[i], fields[i]).value)
  {
    hide Encode, Refusal, ToBits, Join;
    if fields == [] {
    } else {
      var last := |fields| - 1;
      PackRefusedExactlyWhen(fields[..last], values[..last]);
      assert forall i: nat :: i < last ==>
        (FirstRefused(fields, values, i) <==> FirstRefused(fields[..last], values[..last], i));
      EncodeRefuses(values[last], fields[last]);
    }
  }

  /**
   * What one field gives back of a value that it took: the low bits of a number, of a negative
   * one as well; the bits of a string that the width asks for; nothing as zeros.
   */
  lemma FieldComesBack(v: Value, f: Field)
    requires Encode(v, f).Ok?
    ensures var got := Decode(Masked(Encode(v, f).value, f.width), f);
      if f.kind == Number then got == Num(if v.Num? then v.n % Pow2(f.width) else 0)
      else
        && got.Str? && |got.s| == (f.width + 7) / 8
        && forall i :: 0 <= i < |got.s| ==>
             got.s[i] as nat ==
               if !v.Str? || v.s == [] then 0
               else if 8 * (i + 1) <= f.width then v.s[i] as nat
               else v.s[i] as nat % Pow2(f.width % 8)
  {
    var p, rem := f.width / 8, f.width % 8;
    if f.kind == Number {
      if !v.Num? {
        SmallMod(0, Pow2(f.width));
      }
    } else if v.Str? && v.s != [] && f.width > 0 {
      StringComesBack(v.s, p, rem);
    } else {
      SmallMod(0, Pow2(f.width));
      ZeroBits(p, rem);
    }
  }

  lemma StringComesBack(s: seq<byte>, p: nat, rem: nat)
    requires rem < 8 && |s| >= Needed(p, rem)
    ensures FromBits(s, p, rem) % Pow2(8 * p + rem) == FromBits(s, p, rem)
    ensures var got := ToBits(FromBits(s, p, rem), p, rem);
      && got[..p] == s[..p] && (rem != 0 ==> got[p] as nat == s[p] as nat % Pow2(rem))
  {
    ToFromBits(s, p, rem);
    SmallMod(FromBits(s, p, rem), Pow2(8 * p + rem));
    LastBytesOfBigEndian(s[..p]);
    if rem > 0 {
      Pow2Below8(rem);
      Joined(BigEndian(s[..p]), s[p] as nat % Pow2(rem), Pow2(rem));
    }
  }

  lemma ZeroBits(p: nat, rem: nat)
    requires rem < 8
    ensures forall i :: 0 <= i < Needed(p, rem) ==> ToBits(0, p, rem)[i] == 0
  {
    ZeroBytes(p);
    SmallMod(0, Pow2(rem));
  }

  lemma {:induction false} ZeroBytes(n: nat)
    ensures forall i :: 0 <= i < n ==> LastBytes(0, n)[i] == 0
  {
    if n == 0 {
    } else {
      ZeroBytes(n - 1);
    }
  }

  /** The same for a whole struct: what unpack gives for any values that pack took. */
  lemma PackedComesBack(fields: seq<Field>, values: seq<Value>)
    requires |values| == |fields| && PackOf(fields, values).Ok?
    ensures UnpackOf(fields, PackOf(fields, values).value).Ok?
    ensures forall i :: 0 <= i < |fields| ==>
      var v, f, got := values[i], fields[i], UnpackOf(fields, PackOf(fields, values).value).value[i];
      && Encode(v, f).Ok? && got == Decode(Masked(Encode(v, f).value, f.width), f)
      && (f.kind == Number ==> got == Num(if v.Num? then v.n % Pow2(f.width) else 0))
  {
    hide Encode, Decode, ToBits, Join, Split, UnpackOf, Pow2, Masked;
    SlotsAre(fields, values);
    UnpackPacked(fields, values);
    forall i | 0 <= i < |fields|
      ensures fields[i].kind == Number ==>
        Decode(Masked(Encode(values[i], fields[i]).value, fields[i].width), fields[i])
        == Num(if values[i].Num? then values[i].n % Pow2(fields[i].width) else 0)
    {
      FieldComesBack(values[i], fields[i]);
    }
  }
}
