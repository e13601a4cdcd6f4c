/** The binary layer of content identifiers (cmd/ipfs/cid.go): multihashes, CID construction, the
    slice parser, and the accessors that parse the stored bytes again.  Hashing and text encodings
    are not part of this model. */
module Cid {
  import opened Words
  import opened Varint

  const SHA2_256: nat := 0x12
  const DAG_PROTOBUF: nat := 0x70

  datatype Error =
    | BadVarint(error: VarintError)
    | TooShort
    | DigestTooLong
    | LengthBeyondBuffer
    | InconsistentLength
    | NotEnoughForV0
    | BadVersion
    | InvalidHashForV0
    | TrailingBytes

  datatype Result<+T> = Success(value: T) | Failure(error: Error) {
    predicate IsFailure() { Failure? }

    function PropagateFailure<U>(): Result<U>
      requires IsFailure()
    {
      Failure(error)
    }

    function Extract(): T
      requires Success?
    {
      value
    }
  }

  // ---------------------------------------------------------------- multihashes (go-multihash)

  datatype Multihash = Multihash(len: nat, code: nat, digest: seq<Byte>)

  function Varint63(buf: seq<Byte>): Result<(nat, nat)> {
    var d := FromUvarint(buf);
    if d.Err? then Failure(BadVarint(d.error)) else Success((d.value, d.len))
  }

  lemma {:induction false} Varint63Exact(buf: seq<Byte>, v: nat, n: nat)
    ensures Varint63(buf) == Success((v, n)) <==> v < 0x8000_0000_0000_0000 && Encode(v) <= buf && n == |Encode(v)|
  {
    FromUvarintExact(buf, v, n);
  }

  /** Code, digest length and digest; bytes may follow. */
  function ReadMultihash(buf: seq<Byte>): Result<Multihash> {
    if |buf| < 2 then Failure(TooShort)
    else
      var (code, n) :- Varint63(buf);
      Varint63Exact(buf, code, n);
      var rest := buf[n..];
      var (length, m) :- Varint63(rest);
      Varint63Exact(rest, length, m);
      if length > 0x7FFF_FFFF then Failure(DigestTooLong)
      else if length > |rest| - m then Failure(LengthBeyondBuffer)
      else Success(Multihash(n + m + length, code, rest[m..m + length]))
  }

  /** A multihash that fills its buffer. */
  function DecodeMultihash(buf: seq<Byte>): Result<Multihash> {
    var mh :- ReadMultihash(buf);
    if mh.len != |buf| then Failure(InconsistentLength) else Success(mh)
  }

  function EncodeMultihash(code: nat, digest: seq<Byte>): seq<Byte> {
    Encode(code) + Encode(|digest|) + digest
  }

  predicate StartsWithMultihash(buf: seq<Byte>, mh: Multihash) {
    && mh.code < 0x8000_0000_0000_0000 && |mh.digest| <= 0x7FFF_FFFF
    && EncodeMultihash(mh.code, mh.digest) <= buf
    && mh.len == |EncodeMultihash(mh.code, mh.digest)|
  }

  lemma {:induction false} MultihashRead(buf: seq<Byte>)
    requires ReadMultihash(buf).Success?
    ensures StartsWithMultihash(buf, ReadMultihash(buf).value)
  {
    hide FromUvarint, Encode, Varint63;
    var (code, n) := Varint63(buf).value;
    Varint63Exact(buf, code, n);
    var rest := buf[n..];
    var (length, m) := Varint63(rest).value;
    Varint63Exact(rest, length, m);
    var mh := ReadMultihash(buf).value;
    assert buf[..n] == Encode(code) && rest[..m] == Encode(length) && |mh.digest| == length;
    assert buf[..mh.len] == buf[..n] + rest[..m] + mh.digest;
  }

  /** Reading a multihash succeeds exactly on the encodings of codes below 2^63 with digests of at
      most 2^31 - 1 bytes, followed by anything. */
  lemma {:induction false} ReadMultihashExact(buf: seq<Byte>, mh: Multihash)
    ensures ReadMultihash(buf) == Success(mh) <==> StartsWithMultihash(buf, mh)
  {
    hide ReadMultihash, EncodeMultihash;
    if ReadMultihash(buf) == Success(mh) { MultihashRead(buf); }
    if StartsWithMultihash(buf, mh) { MultihashReads(buf, mh); }
  }

  lemma {:induction false} EncodeNonempty(v: nat)
    ensures |Encode(v)| >= 1
  {
  }

  lemma {:induction false} MultihashReads(buf: seq<Byte>, mh: Multihash)
    requires StartsWithMultihash(buf, mh)
    ensures ReadMultihash(buf) == Success(mh)
  {
    hide FromUvarint, Encode, Varint63;
    var (c, l) := (Encode(mh.code), Encode(|mh.digest|));
    EncodeNonempty(mh.code);
    EncodeNonempty(|mh.digest|);
    var suffix := buf[mh.len..];
    assert buf == c + (l + (mh.digest + suffix));
    Varint63Exact(buf, mh.code, |c|);
    var rest := buf[|c|..];
    assert rest == l + (mh.digest + suffix);
    Varint63Exact(rest, |mh.digest|, |l|);
    assert rest[|l|..|l| + |mh.digest|] == mh.digest;
  }

  /** A buffer is a valid multihash exactly when it is the encoding of one. */
  lemma {:induction false} DecodeMultihashExact(buf: seq<Byte>)
    requires DecodeMultihash(buf).Success?
    ensures var mh := DecodeMultihash(buf).value;
            StartsWithMultihash(buf, mh) && buf == EncodeMultihash(mh.code, mh.digest)
  {
    ReadMultihashExact(buf, DecodeMultihash(buf).value);
  }

  lemma {:induction false} MultihashWithSuffix(buf: seq<Byte>, suffix: seq<Byte>)
    requires DecodeMultihash(buf).Success?
    ensures ReadMultihash(buf + suffix) == Success(DecodeMultihash(buf).value)
    ensures DecodeMultihash(buf).value.len == |buf|
  {
    var mh := DecodeMultihash(buf).value;
    hide ReadMultihash, EncodeMultihash;
    DecodeMultihashExact(buf);
    ReadMultihashExact(buf + suffix, mh);
  }

  // ---------------------------------------------------------------- CIDs

  datatype Cid = Cid(str: seq<Byte>)

  /** Version byte, codec varint, multihash. */
  function NewCidV1(codec: u64, mhash: seq<Byte>): Cid {
    Cid([1] + Encode(codec) + mhash)
  }

  /** Only a 32-byte sha2-256 multihash can be a version 0 CID. */
  function TryNewCidV0(mhash: seq<Byte>): Result<Cid> {
    var mh :- DecodeMultihash(mhash);
    if mh.code != SHA2_256 || |mh.digest| != 32 then Failure(InvalidHashForV0) else Success(Cid(mhash))
  }

  predicate LooksV0(data: seq<Byte>) {
    |data| > 2 && data[0] == SHA2_256 && data[1] == 32
  }

  /** The slice parser: how many bytes the CID takes, and the CID. */
  function CidFromBytes(data: seq<Byte>): Result<(nat, Cid)> {
    if LooksV0(data) then
      if |data| < 34 then Failure(NotEnoughForV0)
      else
        var _ :- DecodeMultihash(data[..34]);
        Success((34, Cid(data[..34])))
    else
      var (vers, n) :- Varint63(data);
      Varint63Exact(data, vers, n);
      if vers != 1 then Failure(BadVersion)
      else
        var (codec, m) :- Varint63(data[n..]);
        Varint63Exact(data[n..], codec, m);
        var mh :- ReadMultihash(data[n + m..]);
        ReadMultihashExact(data[n + m..], mh);
        Success((n + m + mh.len, Cid(data[..n + m + mh.len])))
  }

  function Cast(data: seq<Byte>): Result<Cid> {
    var (n, c) :- CidFromBytes(data);
    if n != |data| then Failure(TrailingBytes) else Success(c)
  }

  // ---------------------------------------------------------------- accessors

  function Version(c: Cid): nat {
    if |c.str| == 34 && c.str[0] == 18 && c.str[1] == 32 then 0 else 1
  }

  /** Value and length of a leading varint; zero for both when it does not decode. */
  function Lax(d: Decoded): (nat, nat) {
    if d.Ok? then (d.value, d.len) else (0, 0)
  }

  function Skip(s: seq<Byte>, n: nat): seq<Byte> {
    if n <= |s| then s[n..] else []
  }

  function Type(c: Cid): nat {
    if Version(c) == 0 then DAG_PROTOBUF
    else
      var (_, n) := Lax(Uvarint(c.str));
      Lax(Uvarint(Skip(c.str, n))).0
  }

  function Hash(c: Cid): seq<Byte> {
    if Version(c) == 0 then c.str
    else
      var (_, n1) := Lax(FromUvarint(c.str));
      var (_, n2) := Lax(FromUvarint(Skip(c.str, n1)));
      Skip(c.str, n1 + n2)
  }

  datatype Prefix = Prefix(version: nat, codec: nat, mhType: nat, mhLength: nat)

  function PrefixOf(c: Cid): Prefix {
    if Version(c) == 0 then Prefix(0, DAG_PROTOBUF, SHA2_256, 32)
    else
      var s0 := c.str;
      var (version, n0) := Lax(Uvarint(s0));
      var s1 := Skip(s0, n0);
      var (codec, n1) := Lax(Uvarint(s1));
      var s2 := Skip(s1, n1);
      var (mhType, n2) := Lax(Uvarint(s2));
      var s3 := Skip(s2, n2);
      Prefix(version, codec, mhType, Lax(Uvarint(s3)).0)
  }

  // ---------------------------------------------------------------- version 1

  lemma {:induction false} DecodeOne(rest: seq<Byte>)
    ensures Varint63([1] + rest) == Success((1, 1)) && FromUvarint([1] + rest) == Ok(1, 1)
    ensures Uvarint([1] + rest) == Ok(1, 1)
  {
    assert Encode(1) == [1];
    Varint63Exact([1] + rest, 1, 1);
    UvarintExact([1] + rest, 1, 1);
  }

  /** Parsing a constructed version 1 CID, followed by anything, returns exactly that CID; the
      parser rejects it exactly when the codec needs more than 63 bits. */
  lemma {:induction false} V1Parses(codec: u64, m: seq<Byte>, suffix: seq<Byte>)
    requires DecodeMultihash(m).Success?
    ensures var c := NewCidV1(codec, m);
            var r := CidFromBytes(c.str + suffix);
            && (r.Success? <==> codec < 0x8000_0000_0000_0000)
            && (r.Success? ==> r.value == (|c.str|, c))
  {
    hide Uvarint, FromUvarint, Encode, Varint63, ReadMultihash, DecodeMultihash;
    var (c, e) := (NewCidV1(codec, m), Encode(codec));
    var data := c.str + suffix;
    var tail := e + (m + suffix);
    assert data == [1] + tail && data[1..] == tail;
    DecodeOne(tail);
    Varint63Exact(tail, codec, |e|);
    if codec < 0x8000_0000_0000_0000 {
      assert data[1 + |e|..] == m + suffix;
      MultihashWithSuffix(m, suffix);
      assert data[..|c.str|] == c.str;
    } else {
      WideCodecRejected(tail, codec);
    }
  }

  /** The smallest codec beyond the parser's range, over the identity multihash of no bytes. */
  lemma {:induction false} WideCodecExample()
    ensures DecodeMultihash([0, 0]).Success?
    ensures CidFromBytes(NewCidV1(0x8000_0000_0000_0000, [0, 0]).str).Failure?
    ensures Hash(NewCidV1(0x8000_0000_0000_0000, [0, 0])) != [0, 0]
  {
    var m: seq<Byte> := [0, 0];
    assert Encode(0) == [0];
    assert m == EncodeMultihash(0, []);
    hide Encode, FromUvarint, Varint63, CidFromBytes, Hash;
    MultihashReads(m, Multihash(2, 0, []));
    var c := NewCidV1(0x8000_0000_0000_0000, m);
    assert c.str + [] == c.str;
    V1Parses(0x8000_0000_0000_0000, m, []);
    HashReads(0x8000_0000_0000_0000, m);
  }

  lemma {:induction false} WideCodecRejected(tail: seq<Byte>, codec: u64)
    requires codec >= 0x8000_0000_0000_0000 && Encode(codec) <= tail
    ensures Varint63(tail).Failure?
  {
    EncodePrefix(tail, codec);
    LengthLimits(Encode(codec));
  }

  lemma {:induction false} UvarintOf(v: u64, rest: seq<Byte>)
    ensures Uvarint(Encode(v) + rest) == Ok(v, |Encode(v)|)
    ensures Skip(Encode(v) + rest, |Encode(v)|) == rest
  {
    UvarintExact(Encode(v) + rest, v, |Encode(v)|);
  }

  /** The accessors of a constructed version 1 CID.  The codec reads back for all 64-bit values; the
      multihash reads back exactly when the codec fits 63 bits. */
  lemma {:induction false} V1Accessors(codec: u64, m: seq<Byte>)
    requires DecodeMultihash(m).Success?
    ensures var c := NewCidV1(codec, m);
            var mh := DecodeMultihash(m).value;
            && Version(c) == 1
            && Type(c) == codec
            && (Hash(c) == m <==> codec < 0x8000_0000_0000_0000)
            && PrefixOf(c) == Prefix(1, codec, mh.code, |mh.digest|)
  {
    hide Uvarint, FromUvarint, Encode, DecodeMultihash;
    var (c, mh) := (NewCidV1(codec, m), DecodeMultihash(m).value);
    var (e, x, y) := (Encode(codec), Encode(mh.code), Encode(|mh.digest|));
    DecodeMultihashExact(m);
    assert m == x + (y + mh.digest);
    assert c.str == [1] + (e + m) && Skip(c.str, 1) == e + m;
    DecodeOne(e + m);
    UvarintOf(codec, m);
    UvarintOf(mh.code, y + mh.digest);
    UvarintOf(|mh.digest|, mh.digest);
    HashReads(codec, m);
  }

  lemma {:induction false} HashReads(codec: u64, m: seq<Byte>)
    ensures Hash(NewCidV1(codec, m)) == m <==> codec < 0x8000_0000_0000_0000
  {
    hide Uvarint, FromUvarint, Encode;
    var (c, e) := (NewCidV1(codec, m), Encode(codec));
    assert c.str == [1] + (e + m) && Skip(c.str, 1) == e + m;
    DecodeOne(e + m);
    EncodeNonempty(codec);
    FromUvarintExact(e + m, codec, |e|);
    if codec < 0x8000_0000_0000_0000 {
      assert Skip(c.str, 1 + |e|) == m;
    } else {
      WideFromUvarint(e + m, codec);
    }
  }

  lemma {:induction false} WideFromUvarint(tail: seq<Byte>, codec: u64)
    requires codec >= 0x8000_0000_0000_0000 && Encode(codec) <= tail
    ensures FromUvarint(tail).Err?
  {
    WideCodecRejected(tail, codec);
  }

  // ---------------------------------------------------------------- version 0

  lemma {:induction false} SmallEncodings()
    ensures Encode(SHA2_256) == [18] && Encode(32) == [32]
  {
  }

  /** Thirty-four bytes that start with 18, 32 are a sha2-256 multihash. */
  lemma {:induction false} V0Multihash(s: seq<Byte>)
    requires |s| == 34 && s[0] == 18 && s[1] == 32
    ensures DecodeMultihash(s) == Success(Multihash(34, SHA2_256, s[2..]))
  {
    SmallEncodings();
    hide Encode, ReadMultihash;
    var mh := Multihash(34, SHA2_256, s[2..]);
    assert EncodeMultihash(SHA2_256, s[2..]) == s;
    ReadMultihashExact(s, mh);
  }

  /** A version 0 CID is exactly such a multihash; it parses back, with any suffix. */
  lemma {:induction false} V0Exact(m: seq<Byte>, suffix: seq<Byte>)
    ensures TryNewCidV0(m).Success? <==> |m| == 34 && m[0] == 18 && m[1] == 32
    ensures TryNewCidV0(m).Success? ==>
              var c := Cid(m);
              && TryNewCidV0(m) == Success(c)
              && CidFromBytes(m + suffix) == Success((34, c))
              && Version(c) == 0 && Hash(c) == m && Type(c) == DAG_PROTOBUF
              && PrefixOf(c) == Prefix(0, DAG_PROTOBUF, SHA2_256, 32)
  {
    hide ReadMultihash, DecodeMultihash, Encode;
    if TryNewCidV0(m).Success? {
      DecodeMultihashExact(m);
      SmallEncodings();
      var digest := DecodeMultihash(m).value.digest;
      assert m == [18] + [32] + digest;
    }
    if |m| == 34 && m[0] == 18 && m[1] == 32 {
      V0Multihash(m);
      assert (m + suffix)[..34] == m;
    }
  }

  /** Constructed CIDs of the two versions are never equal. */
  lemma {:induction false} VersionsDisjoint(codec: u64, m: seq<Byte>, m0: seq<Byte>)
    requires TryNewCidV0(m0).Success?
    ensures NewCidV1(codec, m) != TryNewCidV0(m0).value
  {
    hide Encode;
    V0Exact(m0, []);
    assert NewCidV1(codec, m).str[0] == 1;
  }

  // ---------------------------------------------------------------- every successful parse

  /** The accessors recover the parts, and the constructor of that version rebuilds the same CID. */
  predicate Rebuilds(c: Cid) {
    if Version(c) == 0 then TryNewCidV0(Hash(c)) == Success(c)
    else
      && Type(c) < 0x8000_0000_0000_0000
      && DecodeMultihash(Hash(c)).Success?
      && NewCidV1(Type(c), Hash(c)) == c
  }

  /** Whatever the parser accepts is a CID of the version it took it for, rebuilt from its parts. */
  lemma {:induction false} ParseSound(data: seq<Byte>)
    requires CidFromBytes(data).Success?
    ensures var (n, c) := CidFromBytes(data).value;
            && n <= |data| && c.str == data[..n]
            && (Version(c) == 0 <==> LooksV0(data))
            && Rebuilds(c)
  {
    hide CidFromBytes, Uvarint, FromUvarint, Encode, DecodeMultihash, Type, Hash, Version, PrefixOf;
    if LooksV0(data) {
      V0Parts(data);
      V0Exact(data[..34], []);
    } else {
      var codec, m := V1Parts(data);
      V1Accessors(codec, m);
    }
  }

  lemma {:induction false} V0Parts(data: seq<Byte>)
    requires CidFromBytes(data).Success? && LooksV0(data)
    ensures |data| >= 34 && CidFromBytes(data).value == (34, Cid(data[..34]))
    ensures data[..34][0] == 18 && data[..34][1] == 32
  {
  }

  /** The codec and multihash found by a successful version 1 parse. */
  lemma {:induction false} V1Parts(data: seq<Byte>) returns (codec: u64, m: seq<Byte>)
    requires CidFromBytes(data).Success? && !LooksV0(data)
    ensures codec < 0x8000_0000_0000_0000 && DecodeMultihash(m).Success?
    ensures CidFromBytes(data).value == (|NewCidV1(codec, m).str|, NewCidV1(codec, m))
    ensures NewCidV1(codec, m).str <= data
    ensures Varint63(data) == Success((1, 1)) && Varint63(data[1..]) == Success((codec, |Encode(codec)|))
    ensures ReadMultihash(data[1 + |Encode(codec)|..]) == DecodeMultihash(m)
  {
    hide Uvarint, FromUvarint, Encode, Varint63, ReadMultihash, EncodeMultihash;
    var (vers, n) := Varint63(data).value;
    Varint63Exact(data, vers, n);
    EncodeOne();
    var rest := data[n..];
    var (c, k) := Varint63(rest).value;
    Varint63Exact(rest, c, k);
    var tail := data[n + k..];
    var mh := ReadMultihash(tail).value;
    ReadMultihashExact(tail, mh);
    codec, m := c, tail[..mh.len];
    ReadMultihashExact(m, mh);
    assert data[..n] == [1] && rest[..k] == Encode(c);
    assert data[..n + k + mh.len] == data[..n] + rest[..k] + m;
  }

  lemma {:induction false} EncodeOne()
    ensures Encode(1) == [1]
  {
  }

  /** A parsed CID parses again, on its own or followed by anything: the parser looks at no byte
      beyond the CID, and `Cast` accepts what `Bytes` returns. */
  lemma {:induction false} ParseStable(data: seq<Byte>, suffix: seq<Byte>)
    requires CidFromBytes(data).Success?
    ensures var (n, c) := CidFromBytes(data).value;
            && CidFromBytes(c.str + suffix) == Success((n, c))
            && Cast(c.str) == Success(c)
  {
    var (n, c) := CidFromBytes(data).value;
    assert c.str + [] == c.str;
    hide CidFromBytes, Uvarint, FromUvarint, Encode, ReadMultihash, DecodeMultihash, NewCidV1;
    if LooksV0(data) {
      V0Parts(data);
      V0Exact(c.str, suffix);
      V0Exact(c.str, []);
    } else {
      var codec, m := V1Parts(data);
      V1Parses(codec, m, suffix);
      V1Parses(codec, m, []);
    }
  }

  /** `Cast` accepts exactly the bytes of a CID, with nothing before or after them. */
  lemma {:induction false} CastExactly(data: seq<Byte>, c: Cid)
    ensures Cast(data) == Success(c) <==> c.str == data && CidFromBytes(data) == Success((|data|, c))
    ensures CidFromBytes(data).Success? ==>
              var d := CidFromBytes(data).value.1; Cast(data).Success? <==> d.str == data
  {
    hide CidFromBytes, Rebuilds, Version, LooksV0;
    assert data[..|data|] == data;
    if CidFromBytes(data).Success? {
      ParseSound(data);
      var (n, d) := CidFromBytes(data).value;
      assert CidFromBytes(data) == Success((n, d));
      assert Cast(data) == if n != |data| then Failure(TrailingBytes) else Success(d);
    }
  }
}
