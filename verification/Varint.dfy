/** Unsigned varints, as cmd/ipfs writes and reads them.  Two decoders are in play: the package's own
    `uvarint` accepts 64-bit values in at most ten bytes, while the multiformats library stops at
    nine bytes ("Practical maximum of 9 bytes" of the unsigned-varint specification). */
module Varint {
  import opened Words
  import opened NumberTheory

  datatype VarintError = Overflow | NotMinimal | Underflow

  datatype Decoded = Ok(value: nat, len: nat) | Err(error: VarintError)

  // ---------------------------------------------------------------- base-128 digits

  /** The minimal little-endian base-128 encoding. */
  function Encode(x: nat): seq<Byte> {
    if x < 0x80 then [x] else [x % 0x80 + 0x80] + Encode(x / 0x80)
  }

  /** The number a byte string denotes, reading seven bits of each byte. */
  function Value(s: seq<Byte>): nat {
    if s == [] then 0 else s[0] % 0x80 + 0x80 * Value(s[1..])
  }

  /** The number of leading bytes with the continuation bit set. */
  function Continuations(s: seq<Byte>): (k: nat)
    ensures k <= |s|
    ensures forall i :: 0 <= i < k ==> s[i] >= 0x80
    ensures k < |s| ==> s[k] < 0x80
  {
    if s == [] || s[0] < 0x80 then 0 else 1 + Continuations(s[1..])
  }

  lemma {:induction false} ContinuationsUnique(s: seq<Byte>, k: nat)
    requires k < |s| && s[k] < 0x80 && forall i :: 0 <= i < k ==> s[i] >= 0x80
    ensures Continuations(s) == k
  {
  }

  /** Exactly one terminator, at the end, and no redundant zero digit. */
  predicate Minimal(s: seq<Byte>) {
    && |s| >= 1
    && (forall i :: 0 <= i < |s| - 1 ==> s[i] >= 0x80)
    && s[|s| - 1] < 0x80
    && (|s| > 1 ==> s[|s| - 1] != 0)
  }

  lemma {:induction false} EncodeMinimal(x: nat)
    ensures Minimal(Encode(x)) && Value(Encode(x)) == x
  {
    if x >= 0x80 {
      EncodeMinimal(x / 0x80);
      MinimalCons(x % 0x80 + 0x80, Encode(x / 0x80));
    }
  }

  lemma {:induction false} MinimalCons(b: Byte, rest: seq<Byte>)
    requires b >= 0x80 && Minimal(rest) && Value(rest) >= 1
    ensures Minimal([b] + rest) && Value([b] + rest) == b - 0x80 + 0x80 * Value(rest)
  {
    var s := [b] + rest;
    assert s[1..] == rest;
    assert forall i :: 0 < i < |s| ==> s[i] == rest[i - 1];
    if |rest| == 1 { assert rest[1..] == []; }
  }

  lemma {:induction false} MinimalEncode(s: seq<Byte>)
    requires Minimal(s)
    ensures Encode(Value(s)) == s
    ensures |s| > 1 ==> Value(s) >= 0x80
  {
    var rest := s[1..];
    if |s| == 1 {
      assert rest == [];
    } else {
      assert s == [s[0]] + rest;
      MinimalTail(s);
      MinimalEncode(rest);
      SplitDigit(s[0], Value(rest));
    }
  }

  lemma {:induction false} MinimalTail(s: seq<Byte>)
    requires Minimal(s) && |s| > 1
    ensures Minimal(s[1..]) && Value(s[1..]) >= 1
  {
    var rest := s[1..];
    assert forall i :: 0 <= i < |rest| ==> rest[i] == s[i + 1];
    ValueLower(rest);
  }

  lemma {:induction false} ValueLower(s: seq<Byte>)
    requires s != []
    ensures Value(s) >= s[|s| - 1] % 0x80
  {
    if |s| > 1 {
      assert s[1..][|s| - 2] == s[|s| - 1];
      ValueLower(s[1..]);
    }
  }

  lemma {:induction false} SplitDigit(b: Byte, v: nat)
    requires b >= 0x80
    ensures (b % 0x80 + 0x80 * v) % 0x80 == b - 0x80 && (b % 0x80 + 0x80 * v) / 0x80 == v
  {
  }

  lemma {:induction false} TimesBase(b: int, n: nat)
    requires n > 0
    ensures 0x80 * (b * Pow(0x80, n - 1)) == b * Pow(0x80, n)
  {
  }

  lemma {:induction false} ValueSnoc(s: seq<Byte>, b: Byte)
    ensures Value(s + [b]) == Value(s) + b % 0x80 * Pow(0x80, |s|)
  {
    if s == [] {
      assert s + [b] == [b] && [b][1..] == [];
      assert Pow(0x80, 0) == 1;
    } else {
      assert (s + [b])[1..] == s[1..] + [b] && (s + [b])[0] == s[0];
      ValueSnoc(s[1..], b);
      TimesBase(b % 0x80, |s|);
    }
  }

  lemma {:induction false} ValueBound(s: seq<Byte>)
    ensures Value(s) < Pow(0x80, |s|)
  {
    if s == [] {
      assert Pow(0x80, 0) == 1;
    } else {
      ValueBound(s[1..]);
      assert Pow(0x80, |s|) == 0x80 * Pow(0x80, |s| - 1);
    }
  }

  // ---------------------------------------------------------------- the decoders

  /** The package's own decoder: at most ten bytes, the tenth at most one. */
  function Uvarint(buf: seq<Byte>): Decoded {
    var k := Continuations(buf);
    if k == |buf| then Err(Underflow)
    else if k > 9 || (k == 9 && buf[k] > 1) then Err(Overflow)
    else if buf[k] == 0 && k > 0 then Err(NotMinimal)
    else Ok(Value(buf[..k + 1]), k + 1)
  }

  /** The multiformats decoder: at most nine bytes, so values below 2^63. */
  function FromUvarint(buf: seq<Byte>): Decoded {
    var k := Continuations(buf);
    if k >= 9 then Err(Overflow)
    else if k == |buf| then Err(Underflow)
    else if buf[k] == 0 && k > 0 then Err(NotMinimal)
    else Ok(Value(buf[..k + 1]), k + 1)
  }

  lemma {:induction false} Powers()
    ensures Pow(0x80, 9) == 0x8000_0000_0000_0000
    ensures Pow(0x80, 10) == 0x40_0000_0000_0000_0000
  {
    assert Pow(0x80, 3) == 0x20_0000;
    PowAdd(0x80, 3, 3);
    PowAdd(0x80, 6, 3);
    assert Pow(0x80, 10) == 0x80 * Pow(0x80, 9);
  }

  lemma {:induction false} PowMonotone(m: nat, n: nat)
    requires m <= n
    ensures 1 <= Pow(0x80, m) <= Pow(0x80, n)
    decreases n
  {
    if m < n {
      PowMonotone(m, n - 1);
    } else if m > 0 {
      PowMonotone(m - 1, n - 1);
    }
  }

  lemma {:induction false} LastDigit(s: seq<Byte>)
    requires Minimal(s)
    ensures Value(s) == Value(s[..|s| - 1]) + s[|s| - 1] * Pow(0x80, |s| - 1)
  {
    hide Value, Pow;
    assert s == s[..|s| - 1] + [s[|s| - 1]];
    ValueSnoc(s[..|s| - 1], s[|s| - 1]);
  }

  /** How long the encoding of a number is, at the two limits that matter. */
  lemma {:induction false} LengthLimits(s: seq<Byte>)
    requires Minimal(s)
    ensures |s| <= 9 <==> Value(s) < 0x8000_0000_0000_0000
    ensures (|s| <= 9 || (|s| == 10 && s[9] <= 1)) <==> Value(s) < 0x1_0000_0000_0000_0000
  {
    var (n, last) := (|s| - 1, s[|s| - 1]);
    LastDigit(s);
    ValueBound(s[..n]);
    Powers();
    hide Value, Pow;
    if n <= 8 {
      PowMonotone(n + 1, 9);
      ValueBound(s);
    } else {
      PowMonotone(9, n);
      MulMonotone(1, last, Pow(0x80, n));
      if n > 9 {
        PowMonotone(10, n);
      }
    }
  }

  lemma {:induction false} PrefixMinimal(buf: seq<Byte>, k: nat)
    requires k < |buf| && k == Continuations(buf) && !(buf[k] == 0 && k > 0)
    ensures Minimal(buf[..k + 1]) && buf[..k + 1] == Encode(Value(buf[..k + 1]))
  {
    MinimalEncode(buf[..k + 1]);
  }

  lemma {:induction false} EncodePrefix(buf: seq<Byte>, v: nat)
    requires Encode(v) <= buf
    ensures var s := Encode(v);
            Continuations(buf) == |s| - 1 && buf[..|s|] == s && Minimal(s) && Value(s) == v
  {
    hide Encode, Value, Continuations;
    var s := Encode(v);
    EncodeMinimal(v);
    assert forall i :: 0 <= i < |s| ==> buf[i] == s[i];
    ContinuationsUnique(buf, |s| - 1);
  }

  /** `uvarint` is the exact inverse of the encoder on 64-bit values: it succeeds exactly when the
      input starts with the encoding of such a value, and returns that value and its length. */
  lemma {:induction false} UvarintExact(buf: seq<Byte>, v: nat, n: nat)
    ensures Uvarint(buf) == Ok(v, n)
       <==> v < 0x1_0000_0000_0000_0000 && Encode(v) <= buf && n == |Encode(v)|
  {
    hide Encode, Value;
    var k := Continuations(buf);
    if Uvarint(buf) == Ok(v, n) {
      PrefixMinimal(buf, k);
      LengthLimits(buf[..k + 1]);
    }
    if v < 0x1_0000_0000_0000_0000 && Encode(v) <= buf && n == |Encode(v)| {
      EncodePrefix(buf, v);
      LengthLimits(Encode(v));
    }
  }

  /** The multiformats decoder is the exact inverse of the encoder on values below 2^63. */
  lemma {:induction false} FromUvarintExact(buf: seq<Byte>, v: nat, n: nat)
    ensures FromUvarint(buf) == Ok(v, n)
       <==> v < 0x8000_0000_0000_0000 && Encode(v) <= buf && n == |Encode(v)|
  {
    hide Encode, Value;
    var k := Continuations(buf);
    if FromUvarint(buf) == Ok(v, n) {
      PrefixMinimal(buf, k);
      LengthLimits(buf[..k + 1]);
    }
    if v < 0x8000_0000_0000_0000 && Encode(v) <= buf && n == |Encode(v)| {
      EncodePrefix(buf, v);
      LengthLimits(Encode(v));
    }
  }

  // ---------------------------------------------------------------- the loops

  /** cmd/ipfs/add.go: append seven bits at a time. */
  method AppendUvarint(buf: seq<Byte>, v: u64) returns (r: seq<Byte>)
    ensures r == buf + Encode(v)
  {
    var x := v;
    r := buf;
    while x >= 0x80
      invariant 0 <= x
      invariant r + Encode(x) == buf + Encode(v)
    {
      assert r + Encode(x) == (r + [x % 0x80 + 0x80]) + Encode(x / 0x80);
      r := r + [x % 0x80 + 0x80];
      x := x / 0x80;
    }
    r := r + [x];
  }

  /** The low seven bits of a byte, shifted to their place. */
  function Septet(b: Byte, i: nat): int { b % 0x80 * Pow(0x80, i) }

  /** The accumulator stays exact as long as it fits. */
  lemma {:induction false} Accumulate(buf: seq<Byte>, i: nat)
    requires i < |buf|
    ensures Value(buf[..i + 1]) == Value(buf[..i]) + Septet(buf[i], i)
    ensures i < 9 ==> Value(buf[..i + 1]) < 0x8000_0000_0000_0000
  {
    hide Value, Pow;
    assert buf[..i + 1] == buf[..i] + [buf[i]];
    ValueSnoc(buf[..i], buf[i]);
    ValueBound(buf[..i + 1]);
    Powers();
    if i < 9 { PowMonotone(i + 1, 9); }
  }

  /** cmd/ipfs/cid.go: accumulate seven bits at a time.  The accumulator is a 64-bit word, so bits
      shifted beyond it are lost; by then the input can only be rejected. */
  method DecodeUvarint(buf: seq<Byte>) returns (r: Decoded)
    ensures r == Uvarint(buf)
  {
    var x: u64, i := 0, 0;
    assert Value(buf[..0]) == 0;
    hide Value, Pow;
    while i < |buf|
      invariant 0 <= i <= |buf|
      invariant i <= Continuations(buf)
      invariant i <= 9 ==> x == Value(buf[..i])
    {
      var b := buf[i];
      Accumulate(buf, i);
      if b < 0x80 {
        ContinuationsUnique(buf, i);
        if i > 9 || (i == 9 && b > 1) {
          return Err(Overflow);
        }
        if b == 0 && i > 0 {
          return Err(NotMinimal);
        }
        return Ok(x + Septet(b, i), i + 1);
      }
      NextContinuation(buf, i);
      x := (x + Septet(b, i)) % 0x1_0000_0000_0000_0000;
      i := i + 1;
    }
    return Err(Underflow);
  }

  lemma {:induction false} NextContinuation(buf: seq<Byte>, i: nat)
    requires i < |buf| && i <= Continuations(buf) && buf[i] >= 0x80
    ensures i + 1 <= Continuations(buf)
  {
  }
}
