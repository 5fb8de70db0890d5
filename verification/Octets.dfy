/** Octets, machine integers and the big-endian layout of section 2.3.2 of RFC 1035. */
module Octets {
  type byte = b: int | 0 <= b < 256
  type uint16 = v: int | 0 <= v < 0x1_0000
  type positive = n: int | n >= 1 witness 1
  type uint32 = v: int | 0 <= v < 0x1_0000_0000

  /** A Go string or byte slice: both are sequences of octets. */
  type Bytes = seq<byte>

  datatype Option<+T> = None | Some(value: T)

  /** The value or the error of a Go function; callers never look inside the error. */
  datatype Result<+T> = Ok(value: T) | Err {
    predicate IsFailure() { Err? }

    function PropagateFailure<U>(): Result<U>
      requires Err?
    {
      Err
    }

    function Extract(): T
      requires Ok?
    {
      value
    }
  }

  function U16(v: uint16): (r: Bytes)
    ensures |r| == 2
  {
    [v / 256, v % 256]
  }

  function U32(v: uint32): (r: Bytes)
    ensures |r| == 4
  {
    [v / 0x100_0000, v / 0x1_0000 % 256, v / 256 % 256, v % 256]
  }

  function ReadU16(p: Bytes, off: nat): uint16
    requires off + 2 <= |p|
  {
    (p[off] as int) * 256 + p[off + 1]
  }

  function ReadU32(p: Bytes, off: nat): uint32
    requires off + 4 <= |p|
  {
    (p[off] as int) * 0x100_0000 + (p[off + 1] as int) * 0x1_0000 + (p[off + 2] as int) * 256 + p[off + 3]
  }

  /** `x` stands in `p` at offset `off`. Recursive, so that it unfolds only where asked to. */
  ghost predicate At(p: Bytes, off: nat, x: Bytes)
    decreases |x|
  {
    if x == [] then off <= |p|
    else off < |p| && p[off] == x[0] && At(p, off + 1, x[1..])
  }

  lemma {:induction false} AtSlice(p: Bytes, off: nat, x: Bytes)
    ensures At(p, off, x) <==> off + |x| <= |p| && p[off..off + |x|] == x
    decreases |x|
  {
    if x != [] {
      AtSlice(p, off + 1, x[1..]);
      if off + |x| <= |p| {
        assert p[off..off + |x|] == [p[off]] + p[off + 1..off + |x|];
        assert x == [x[0]] + x[1..];
      }
    }
  }

  lemma {:induction false} AtSplit(p: Bytes, off: nat, x: Bytes, y: Bytes)
    ensures At(p, off, x + y) <==> At(p, off, x) && At(p, off + |x|, y)
    decreases |x|
  {
    if x == [] {
      assert x + y == y;
      if y != [] && At(p, off, y) {
        assert off < |p|;
      }
      AtBound(p, off, y);
    } else {
      assert (x + y)[1..] == x[1..] + y;
      AtSplit(p, off + 1, x[1..], y);
    }
  }

  lemma {:induction false} AtBound(p: Bytes, off: nat, x: Bytes)
    ensures At(p, off, x) ==> off + |x| <= |p|
    decreases |x|
  {
    if x != [] {
      AtBound(p, off + 1, x[1..]);
    }
  }

  lemma {:induction false} AtAppend(p: Bytes, q: Bytes, off: nat, x: Bytes)
    requires At(p, off, x)
    ensures At(p + q, off, x)
    decreases |x|
  {
    if x != [] {
      AtAppend(p, q, off + 1, x[1..]);
    }
  }

  lemma {:induction false} AtIndex(p: Bytes, off: nat, x: Bytes, i: nat)
    requires At(p, off, x) && i < |x|
    ensures off + i < |p| && p[off + i] == x[i]
    decreases |x|
  {
    if i > 0 {
      AtIndex(p, off + 1, x[1..], i - 1);
    }
  }

  lemma AtU16(p: Bytes, off: nat, v: uint16)
    requires At(p, off, U16(v))
    ensures off + 2 <= |p| && ReadU16(p, off) == v
  {
    AtIndex(p, off, U16(v), 0);
    AtIndex(p, off, U16(v), 1);
  }

  lemma AtU32(p: Bytes, off: nat, v: uint32)
    requires At(p, off, U32(v))
    ensures off + 4 <= |p| && ReadU32(p, off) == v
  {
    hide At;
    var x := U32(v);
    AtIndex(p, off, x, 0);
    AtIndex(p, off, x, 1);
    AtIndex(p, off, x, 2);
    AtIndex(p, off, x, 3);
    FourDigits(v);
  }

  lemma FourDigits(v: int)
    ensures v / 0x100_0000 * 0x100_0000 + v / 0x1_0000 % 256 * 0x1_0000 + v / 256 % 256 * 256 + v % 256 == v
  {
    assert v / 0x1_0000 / 256 == v / 0x100_0000 && v / 256 / 256 == v / 0x1_0000;
  }

  lemma AtByte(p: Bytes, off: nat, b: byte)
    requires At(p, off, [b])
    ensures off < |p| && p[off] == b
  {
  }
}
