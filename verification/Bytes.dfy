/** Stock result types shared by the model. */
module Wrappers {
  datatype Option<+T> = None | Some(value: T)
}

/** Bytes, fixed-width little-endian integers and C strings, as memcpy and
    struct assignment lay them out on a 64-bit little-endian machine. */
module Bytes {
  type Byte = b: int | 0 <= b < 256
  type Int32 = i: int | -0x8000_0000 <= i < 0x8000_0000
  type Word32 = n: int | 0 <= n < 0x1_0000_0000

  /** sizeof(unsigned), sizeof(size_t). */
  const UINT: nat := 4
  const SIZE_T: nat := 8

  /** The number of values of a w-byte unsigned integer. */
  function Range(w: nat): (r: nat)
    ensures r > 0
  {
    if w == 0 then 1 else 256 * Range(w - 1)
  }

  lemma RangeValues()
    ensures Range(UINT) == 0x1_0000_0000
    ensures Range(SIZE_T) == 0x1_0000_0000_0000_0000
  {
    assert Range(1) == 256 && Range(2) == 0x1_0000 && Range(3) == 0x100_0000;
    assert Range(5) == 0x100_0000_0000 && Range(6) == 0x1_0000_0000_0000 && Range(7) == 0x100_0000_0000_0000;
  }

  /** The low w bytes of n, least significant first. */
  function LE(n: nat, w: nat): (s: seq<Byte>)
    ensures |s| == w
  {
    if w == 0 then [] else [n % 256] + LE(n / 256, w - 1)
  }

  function UnLE(s: seq<Byte>): (n: nat)
    ensures n < Range(|s|)
  {
    if |s| == 0 then 0 else s[0] + 256 * UnLE(s[1..])
  }

  lemma {:induction false} UnLEOfLE(n: nat, w: nat)
    requires n < Range(w)
    ensures UnLE(LE(n, w)) == n
  {
    if w > 0 {
      UnLEOfLE(n / 256, w - 1);
      assert LE(n, w)[1..] == LE(n / 256, w - 1);
    }
  }

  lemma {:induction false} LEOfUnLE(s: seq<Byte>)
    ensures LE(UnLE(s), |s|) == s
  {
    if |s| > 0 {
      LEOfUnLE(s[1..]);
      assert UnLE(s) % 256 == s[0] && UnLE(s) / 256 == UnLE(s[1..]);
    }
  }

  /** Least significant byte first: byte i counts 256 to the i-th. */
  lemma {:induction false} LittleEndian(n: nat, w: nat, i: nat)
    requires i < w
    ensures LE(n, w)[i] == n / Range(i) % 256
    decreases i
  {
    if i > 0 {
      LittleEndian(n / 256, w - 1, i - 1);
      DivTwice(n, Range(i - 1));
    }
  }

  lemma DivTwice(n: nat, r: nat)
    requires r > 0
    ensures n / 256 / r == n / (256 * r)
  {
    var q, x := n / 256, n / 256 / r;
    assert x * r <= q < x * r + r;
    assert x * (256 * r) == 256 * (x * r);
    Quotient(n, 256 * r, x);
  }

  lemma Quotient(n: nat, d: nat, x: nat)
    requires x * d <= n < x * d + d
    ensures n / d == x
  {
    var k := n / d;
    assert k * d <= n < k * d + d;
    assert k < x ==> (k + 1) * d <= x * d;
    assert x < k ==> (x + 1) * d <= k * d;
  }

  /** A C int, in two's complement. */
  function PutInt(i: Int32): (s: seq<Byte>)
    ensures |s| == 4
  {
    LE(if i < 0 then i + 0x1_0000_0000 else i, UINT)
  }

  function GetInt(s: seq<Byte>): Int32
    requires |s| == 4
  {
    RangeValues();
    var n := UnLE(s);
    if n >= 0x8000_0000 then n - 0x1_0000_0000 else n
  }

  lemma IntRoundTrip(i: Int32)
    ensures GetInt(PutInt(i)) == i
  {
    RangeValues();
    UnLEOfLE(if i < 0 then i + 0x1_0000_0000 else i, UINT);
  }

  lemma TwosComplement(i: Int32)
    ensures UnLE(PutInt(i)) == i % 0x1_0000_0000
  {
    RangeValues();
    UnLEOfLE(if i < 0 then i + 0x1_0000_0000 else i, UINT);
  }

  lemma IntCanonical(s: seq<Byte>)
    requires |s| == 4
    ensures PutInt(GetInt(s)) == s
  {
    RangeValues();
    LEOfUnLE(s);
  }

  /** The bytes a C string occupies: its characters, then one terminating zero. */
  predicate IsCString(s: seq<Byte>) {
    |s| > 0 && s[|s| - 1] == 0 && forall i :: 0 <= i < |s| - 1 ==> s[i] != 0
  }

  /** What a reader of the C string starting at s sees: everything up to and
      including the first zero (or all of s when there is none). */
  function CStringAt(s: seq<Byte>): (r: seq<Byte>)
    ensures r <= s
  {
    if |s| == 0 then []
    else if s[0] == 0 then [0]
    else [s[0]] + CStringAt(s[1..])
  }

  /** It ends at the first zero. */
  lemma {:induction false} CStringEnds(s: seq<Byte>)
    ensures var r := CStringAt(s);
            && (forall i :: 0 <= i < |r| - 1 ==> s[i] != 0)
            && (|r| < |s| ==> |r| > 0 && s[|r| - 1] == 0)
  {
    if |s| > 0 && s[0] != 0 {
      CStringEnds(s[1..]);
      var r := CStringAt(s[1..]);
      assert forall i :: 1 <= i < |r| + 1 ==> s[i] == s[1..][i - 1];
    }
  }

  lemma {:induction false} CStringAtFront(s: seq<Byte>, rest: seq<Byte>)
    requires IsCString(s)
    ensures CStringAt(s + rest) == s
  {
    if |s| > 1 {
      assert (s + rest)[1..] == s[1..] + rest;
      CStringAtFront(s[1..], rest);
    } else {
      assert s == [0];
    }
  }

  /** memcpy of data to buf + off. */
  method Put(buf: array<Byte>, off: nat, data: seq<Byte>)
    requires off + |data| <= buf.Length
    modifies buf
    ensures buf[..off] == old(buf[..off])
    ensures buf[off..off + |data|] == data
    ensures buf[..off + |data|] == old(buf[..off]) + data
    ensures buf[off + |data|..] == old(buf[off + |data|..])
  {
    forall i | 0 <= i < |data| {
      buf[off + i] := data[i];
    }
  }
}
