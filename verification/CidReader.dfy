/** The streaming CID parser (cmd/ipfs/cid.go), which reads byte by byte into a growing buffer, and
    the proof that it refines the slice parser. */
module CidReader {
  import opened Words
  import opened Varint
  import opened Cid

  /** How a read can fail: at the end of the input, in the middle of it, or for another reason. */
  datatype Fault = NoFault | Eof | UnexpectedEof | Broken

  // ---------------------------------------------------------------- the underlying reader

  /** An io.Reader: the bytes it will deliver, and whether it then reports an error other than EOF.
      Byte-wise and block-wise reads draw from the same position. */
  class ByteStream {
    const data: seq<Byte>
    const broken: bool
    var pos: nat

    ghost predicate Valid()
      reads this
    {
      pos <= |data|
    }

    ghost function Rest(): seq<Byte>
      reads this
      requires Valid()
    {
      data[pos..]
    }

    constructor (data: seq<Byte>, broken: bool)
      ensures Valid() && Rest() == data && this.data == data && this.broken == broken
    {
      this.data, this.broken, pos := data, broken, 0;
    }

    method ReadByte() returns (b: Byte, f: Fault)
      requires Valid()
      modifies this
      ensures Valid()
      ensures f == NoFault ==> old(Rest()) != [] && b == old(Rest())[0] && pos == old(pos) + 1
      ensures f != NoFault ==> old(Rest()) == [] && pos == old(pos) && f == if broken then Broken else Eof
    {
      if pos < |data| {
        b, f, pos := data[pos], NoFault, pos + 1;
      } else {
        b, f := 0, if broken then Broken else Eof;
      }
    }

    /** io.ReadFull into dst[lo..hi]; the count is exact even when the input ends early. */
    method ReadFull(dst: array<Byte>, lo: nat, hi: nat) returns (n: nat, f: Fault)
      requires Valid() && lo <= hi <= dst.Length
      modifies this, dst
      ensures Valid() && pos == old(pos) + n && n <= hi - lo
      ensures n == |old(Rest())| || n == hi - lo
      ensures f == NoFault <==> n == hi - lo
      ensures f == Eof ==> n == 0
      ensures dst[lo..lo + n] == old(Rest())[..n]
      ensures dst[..lo] == old(dst[..lo])
    {
      n := 0;
      while n < hi - lo && pos < |data|
        invariant Valid() && pos == old(pos) + n && n <= hi - lo
        invariant dst[lo..lo + n] == data[old(pos)..pos]
        invariant dst[..lo] == old(dst[..lo])
      {
        dst[lo + n] := data[pos];
        n, pos := n + 1, pos + 1;
      }
      assert data[old(pos)..pos] == old(Rest())[..n];
      f := if n == hi - lo then NoFault else if broken then Broken else if n == 0 then Eof else UnexpectedEof;
    }
  }

  // ---------------------------------------------------------------- the buffering reader

  datatype VarintRead = Got(value: nat) | ReadFault(fault: Fault) | Bad(error: VarintError)

  /** Reads from a stream and keeps every byte read in a buffer with spare capacity. */
  class BufByteReader {
    const src: ByteStream
    var dst: array<Byte>
    var len: nat
    ghost const start: nat

    ghost predicate Valid()
      reads this, src, dst
      ensures Valid() ==> src.Valid() && len == src.pos - start && len <= dst.Length && 64 <= dst.Length
    {
      && src.Valid()
      && 64 <= dst.Length && len <= dst.Length
      && start <= src.pos && len == src.pos - start
      && dst[..len] == src.data[start..src.pos]
    }

    constructor (src: ByteStream)
      requires src.Valid()
      ensures Valid() && fresh(dst) && len == 0 && this.src == src && start == src.pos
    {
      this.src := src;
      dst := new Byte[64];
      len := 0;
      start := src.pos;
    }

    /** Replace the buffer by a larger one with the same contents. */
    method Grow(capacity: nat)
      requires len <= dst.Length <= capacity
      modifies this`dst
      ensures fresh(dst) && dst.Length == capacity && dst[..len] == old(dst[..len])
    {
      dst := new Byte[capacity](i reads this, dst => if 0 <= i < dst.Length then dst[i] else 0);
    }

    method ReadByte() returns (b: Byte, f: Fault)
      requires Valid()
      modifies this`dst, this`len, src, dst
      ensures Valid() && (dst == old(dst) || fresh(dst))
      ensures f == NoFault ==> old(src.Rest()) != [] && b == old(src.Rest())[0] && src.pos == old(src.pos) + 1
      ensures f != NoFault ==>
                old(src.Rest()) == [] && src.pos == old(src.pos) && f == if src.broken then Broken else Eof
    {
      b, f := src.ReadByte();
      if f == NoFault {
        ghost var before := dst[..len];
        if len == dst.Length {
          Grow(2 * dst.Length);
        }
        assert dst[..len] == before;
        dst[len] := b;
        len := len + 1;
        assert dst[..len] == before + [b];
      }
    }

    /** The multiformats stream decoder: at most nine bytes, and no byte read beyond the varint. */
    method ReadUvarint() returns (r: VarintRead)
      requires Valid()
      modifies this`dst, this`len, src, dst
      ensures Valid() && (dst == old(dst) || fresh(dst)) && old(src.pos) <= src.pos
      ensures r.Got? ==> FromUvarint(old(src.Rest())) == Varint.Ok(r.value, src.pos - old(src.pos))
      ensures !r.Got? ==> FromUvarint(old(src.Rest())).Err?
      ensures r == ReadFault(Eof) <==> old(src.Rest()) == [] && !src.broken
    {
      assert Value(src.Rest()[..0]) == 0;
      hide Value, FromUvarint, Continuations, BufByteReader.Valid, Septet;
      ghost var rest := src.Rest();
      var x: nat, i := 0, 0;
      while true
        invariant Valid() && (dst == old(dst) || fresh(dst))
        invariant 0 <= i <= 8 && i <= |rest| && src.pos == old(src.pos) + i
        invariant i <= Continuations(rest) && x == Value(rest[..i])
        decreases 9 - i
      {
        assert src.Rest() == rest[i..];
        var b, f := ReadByte();
        if f != NoFault {
          EndsEarly(rest, i);
          return ReadFault(if f == Eof && i != 0 then UnexpectedEof else f);
        }
        assert b == rest[i];
        if i == 8 && b >= 0x80 {
          TooManyBytes(rest);
          return Bad(Overflow);
        }
        Accumulate(rest, i);
        if b < 0x80 {
          EndsHere(rest, i);
          if b == 0 && i > 0 {
            return Bad(NotMinimal);
          }
          return Got(x + Septet(b, i));
        }
        NextContinuation(rest, i);
        x := x + Septet(b, i);
        i := i + 1;
      }
    }
  }

  lemma {:induction false} Buffered(br: BufByteReader)
    requires br.Valid()
    ensures br.start + br.len == br.src.pos && br.dst[..br.len] == br.src.data[br.start..br.src.pos]
    ensures br.dst[..br.len] == br.src.data[br.start..][..br.len]
    ensures br.src.Rest() == br.src.data[br.start..][br.len..]
  {
  }

  /** A buffer that holds the first p bytes and then the next m holds the first p + m. */
  lemma {:induction false} Joined(dst: seq<Byte>, data: seq<Byte>, p: nat, m: nat)
    requires p + m <= |data| && p + m <= |dst| && dst[..p] == data[..p] && dst[p..p + m] == data[p..][..m]
    ensures dst[..p + m] == data[..p + m]
  {
    assert dst[..p + m] == dst[..p] + dst[p..p + m];
    assert data[..p + m] == data[..p] + data[p..][..m];
  }

  // ---------------------------------------------------------------- what the slice parser would say

  // How the stream decoder's ways to stop agree with the slice decoder.

  lemma {:induction false} EndsEarly(buf: seq<Byte>, i: nat)
    requires i == |buf| && i <= Continuations(buf)
    ensures FromUvarint(buf).Err?
  {
    hide Value;
  }

  lemma {:induction false} TooManyBytes(buf: seq<Byte>)
    requires |buf| > 8 && Continuations(buf) >= 8 && buf[8] >= 0x80
    ensures FromUvarint(buf).Err?
  {
    hide Value;
    NextContinuation(buf, 8);
  }

  lemma {:induction false} EndsHere(buf: seq<Byte>, i: nat)
    requires i < |buf| && i <= 8 && i <= Continuations(buf) && buf[i] < 0x80
    ensures FromUvarint(buf)
         == if buf[i] == 0 && i > 0 then Varint.Err(NotMinimal) else Varint.Ok(Value(buf[..i + 1]), i + 1)
  {
    hide Value;
    ContinuationsUnique(buf, i);
  }

  /** The digest length of a parsable CID. */
  ghost function DigestLength(data: seq<Byte>): nat
    requires CidFromBytes(data).Success?
  {
    PrefixOf(CidFromBytes(data).value.1).mhLength
  }

  /** The four varints of a version 1 CID, and where each starts. */
  ghost predicate V1Header(data: seq<Byte>, n0: nat, n1: nat, n2: nat, n3: nat, mhl: nat) {
    && FromUvarint(data) == Varint.Ok(1, n0) && n0 <= |data|
    && FromUvarint(data[n0..]).Ok? && FromUvarint(data[n0..]).len == n1 && n0 + n1 <= |data|
    && FromUvarint(data[n0 + n1..]).Ok? && FromUvarint(data[n0 + n1..]).len == n2 && n0 + n1 + n2 <= |data|
    && FromUvarint(data[n0 + n1 + n2..]) == Varint.Ok(mhl, n3) && n0 + n1 + n2 + n3 <= |data|
  }

  lemma {:induction false} VersionOneIsNotV0(data: seq<Byte>, n: nat)
    requires FromUvarint(data) == Varint.Ok(1, n)
    ensures !LooksV0(data)
  {
    FromUvarintExact(data, 1, n);
    EncodeOne();
    assert data[0] == 1;
  }

  lemma {:induction false} FromUvarintLen(buf: seq<Byte>)
    requires FromUvarint(buf).Ok?
    ensures 1 <= FromUvarint(buf).len <= |buf|
  {
  }

  /** With a complete header, the slice parser succeeds exactly when the digest is there. */
  lemma {:induction false} SliceAfterHeader(data: seq<Byte>, n0: nat, n1: nat, n2: nat, n3: nat, mhl: nat)
    requires V1Header(data, n0, n1, n2, n3, mhl)
    ensures var p := n0 + n1 + n2 + n3;
            && (CidFromBytes(data).Success? <==> mhl <= 0x7FFF_FFFF && p + mhl <= |data|)
            && (CidFromBytes(data).Success? ==>
                  CidFromBytes(data).value == (p + mhl, Cid(data[..p + mhl])) && DigestLength(data) == mhl)
  {
    hide FromUvarint, Encode, PrefixOf, Uvarint;
    VersionOneIsNotV0(data, n0);
    var tail := data[n0 + n1..];
    assert tail[n2..] == data[n0 + n1 + n2..];
    FromUvarintLen(tail);
    FromUvarintLen(tail[n2..]);
    if mhl <= 0x7FFF_FFFF && n0 + n1 + n2 + n3 + mhl <= |data| {
      assert ReadMultihash(tail).Success? && |ReadMultihash(tail).value.digest| == mhl;
      var k := DigestLengthIs(data);
    }
  }

  /** The digest length the accessors report is the one the parser read. */
  lemma {:induction false} DigestLengthIs(data: seq<Byte>) returns (k: nat)
    requires CidFromBytes(data).Success? && !LooksV0(data)
    ensures Varint63(data) == Success((1, 1)) && |data| >= 1 && Varint63(data[1..]).Success?
    ensures k == 1 + Varint63(data[1..]).value.1 <= |data|
    ensures ReadMultihash(data[k..]).Success?
    ensures DigestLength(data) == |ReadMultihash(data[k..]).value.digest|
  {
    hide CidFromBytes, FromUvarint, Uvarint, Encode, PrefixOf, Varint63, ReadMultihash, DecodeMultihash;
    var codec, m := V1Parts(data);
    V1Accessors(codec, m);
    k := 1 + |Encode(codec)|;
  }

  /** Where the header breaks off, the slice parser fails as well. */
  lemma {:induction false} SliceWithoutHeader(data: seq<Byte>, n0: nat)
    requires FromUvarint(data) == Varint.Ok(1, n0) && n0 <= |data|
    requires var codec := FromUvarint(data[n0..]);
             || codec.Err?
             || (n0 + codec.len <= |data|
                 && var code := FromUvarint(data[n0 + codec.len..]);
                    || code.Err?
                    || (n0 + codec.len + code.len <= |data| && FromUvarint(data[n0 + codec.len + code.len..]).Err?))
    ensures CidFromBytes(data).Failure?
  {
    hide FromUvarint;
    VersionOneIsNotV0(data, n0);
    var codec := FromUvarint(data[n0..]);
    if codec.Ok? {
      var tail := data[n0 + codec.len..];
      var code := FromUvarint(tail);
      if code.Ok? {
        FromUvarintLen(tail);
        assert tail[code.len..] == data[n0 + codec.len + code.len..];
      }
    }
  }

  /** Any other first varint than 1 or 18, or none, is no CID. */
  lemma {:induction false} SliceBadVersion(data: seq<Byte>)
    requires var d := FromUvarint(data); d.Ok? ==> d.value != 1 && d.value != SHA2_256
    ensures CidFromBytes(data).Failure?
  {
    if LooksV0(data) {
      SmallEncodings();
      FromUvarintExact(data, SHA2_256, 1);
    }
  }

  /** First varint 18: version 0, given 34 bytes that start with 18, 32. */
  lemma {:induction false} SliceV0(data: seq<Byte>, n: nat)
    requires FromUvarint(data) == Varint.Ok(SHA2_256, n)
    ensures n == 1 && |data| >= 1
    ensures CidFromBytes(data).Success? <==> |data| >= 34 && DecodeMultihash(data[..34]).Success?
    ensures CidFromBytes(data).Success? ==>
              CidFromBytes(data).value == (34, Cid(data[..34])) && DigestLength(data) == 32
  {
    FromUvarintExact(data, SHA2_256, n);
    SmallEncodings();
    assert data[0] == 18;
    hide FromUvarint, Encode, ReadMultihash, DecodeMultihash;
    if |data| >= 34 {
      var s := data[..34];
      if DecodeMultihash(s).Success? {
        ShaDigestLength(s);
      }
      if LooksV0(data) {
        V0Exact(s, []);
        V0Multihash(s);
      }
    }
  }

  /** A 34-byte multihash with code 18 has a 32-byte digest. */
  lemma {:induction false} ShaDigestLength(s: seq<Byte>)
    requires |s| == 34 && s[0] == 18 && DecodeMultihash(s).Success?
    ensures s[1] == 32
  {
    var mh := DecodeMultihash(s).value;
    DecodeMultihashExact(s);
    var (c, l) := (Encode(mh.code), Encode(|mh.digest|));
    assert s == c + l + mh.digest;
    EncodeMinimal(mh.code);
    assert c[0] == 18;
    assert |c| == 1;
    assert s[1] == l[0];
  }

  // ---------------------------------------------------------------- the streaming parser

  datatype ReadResult = Parsed(cid: Cid) | EndOfInput | Invalid

  /** 32 MiB, the largest digest the reader makes room for. */
  const MAX_DIGEST: nat := 0x200_0000

  /** What a read from the given bytes must return, next to the number of bytes it took. */
  ghost predicate Agrees(data: seq<Byte>, n: nat, c: ReadResult) {
    && (c.Parsed? <==> CidFromBytes(data).Success? && DigestLength(data) <= 0x200_0000)
    && (c.Parsed? ==> CidFromBytes(data) == Success((n, c.cid)))
  }

  /** Reads one CID from a stream.  It succeeds exactly when the slice parser would succeed on the
      remaining bytes and the digest is at most 32 MiB, with the same length and CID; the returned
      count is the number of bytes consumed, even on error; and only an empty input gives EOF. */
  method CidFromReader(r: ByteStream) returns (n: nat, c: ReadResult)
    requires r.Valid()
    modifies r
    ensures r.Valid() && r.pos == old(r.pos) + n
    ensures Agrees(old(r.Rest()), n, c)
    ensures c == EndOfInput <==> old(r.Rest()) == [] && !r.broken
  {
    hide FromUvarint, DigestLength, CidFromBytes;
    ghost var data := r.Rest();
    var br := new BufByteReader(r);
    var vers := br.ReadUvarint();
    if !vers.Got? {
      SliceBadVersion(data);
      if vers == ReadFault(Eof) {
        return 0, EndOfInput;
      }
      return br.len, Invalid;
    }
    if vers.value == SHA2_256 {
      n, c := ReadV0(br);
    } else if vers.value != 1 {
      SliceBadVersion(data);
      n, c := br.len, Invalid;
    } else {
      n, c := ReadV1(br);
    }
  }

  /** After a first varint of 18: 33 more bytes, which must complete a multihash. */
  method ReadV0(br: BufByteReader) returns (n: nat, c: ReadResult)
    requires br.Valid() && FromUvarint(br.src.data[br.start..]) == Varint.Ok(SHA2_256, br.len)
    modifies br`len, br.src, br.dst
    ensures br.src.Valid() && br.src.pos == br.start + n && c != EndOfInput
    ensures Agrees(br.src.data[br.start..], n, c)
  {
    hide FromUvarint, DecodeMultihash, DigestLength, CidFromBytes, BufByteReader.Valid;
    ghost var data := br.src.data[br.start..];
    SliceV0(data, br.len);
    Buffered(br);
    var m, f := br.src.ReadFull(br.dst, 1, 34);
    if f != NoFault {
      return br.len + m, Invalid;
    }
    br.len := 34;
    Joined(br.dst[..], data, 1, m);
    assert br.dst[..34] == br.dst[..][..34];
    if DecodeMultihash(br.dst[..34]).Failure? {
      return br.len, Invalid;
    }
    return br.len, Parsed(Cid(br.dst[..34]));
  }

  /** After a first varint of 1: codec, multihash code, digest length, digest. */
  method ReadV1(br: BufByteReader) returns (n: nat, c: ReadResult)
    requires br.Valid() && FromUvarint(br.src.data[br.start..]) == Varint.Ok(1, br.len)
    modifies br`dst, br`len, br.src, br.dst
    ensures br.src.Valid() && br.src.pos == br.start + n && c != EndOfInput
    ensures Agrees(br.src.data[br.start..], n, c)
  {
    hide FromUvarint, DigestLength, CidFromBytes, BufByteReader.Valid;
    ghost var data, n0 := br.src.data[br.start..], br.len;
    assert br.src.Rest() == data[n0..];
    var codec := br.ReadUvarint();
    if !codec.Got? {
      SliceWithoutHeader(data, n0);
      return br.len, Invalid;
    }
    var mhStart := br.len;
    ghost var n1 := mhStart - n0;
    assert br.src.Rest() == data[n0 + n1..];
    var code := br.ReadUvarint();
    if !code.Got? {
      SliceWithoutHeader(data, n0);
      return br.len, Invalid;
    }
    ghost var n2 := br.len - mhStart;
    assert br.src.Rest() == data[n0 + n1 + n2..];
    var mhl := br.ReadUvarint();
    if !mhl.Got? {
      SliceWithoutHeader(data, n0);
      return br.len, Invalid;
    }
    ghost var n3 := br.len - n0 - n1 - n2;
    n, c := ReadDigest(br, mhStart, mhl.value, n0, n1, n2, n3);
  }

  /** Makes room for the digest, reads it, and checks the multihash once more. */
  method ReadDigest(br: BufByteReader, mhStart: nat, mhl: nat, ghost n0: nat, ghost n1: nat, ghost n2: nat,
                    ghost n3: nat)
    returns (n: nat, c: ReadResult)
    requires br.Valid() && V1Header(br.src.data[br.start..], n0, n1, n2, n3, mhl)
    requires mhStart == n0 + n1 && br.len == n0 + n1 + n2 + n3
    modifies br`dst, br`len, br.src, br.dst
    ensures br.src.Valid() && br.src.pos == br.start + n && c != EndOfInput
    ensures Agrees(br.src.data[br.start..], n, c)
  {
    hide FromUvarint, DigestLength, CidFromBytes, ReadMultihash, V1Header, BufByteReader.Valid;
    ghost var data := br.src.data[br.start..];
    SliceAfterHeader(data, n0, n1, n2, n3, mhl);
    if mhl > MAX_DIGEST {
      return br.len, Invalid;
    }
    Buffered(br);
    var prefixLength := br.len;
    var cidLength := prefixLength + mhl;
    if cidLength > br.dst.Length {
      br.Grow(cidLength);
    }
    br.len := cidLength;
    var m, f := br.src.ReadFull(br.dst, prefixLength, cidLength);
    if f != NoFault {
      return prefixLength + m, Invalid;
    }
    Joined(br.dst[..], data, prefixLength, m);
    assert br.dst[..cidLength] == br.dst[..][..cidLength];
    assert br.dst[mhStart..cidLength] == data[..cidLength][mhStart..];
    assert data[..cidLength][mhStart..] == data[mhStart..cidLength];
    DigestAccepted(data, n0, n1, n2, n3, mhl);
    if ReadMultihash(br.dst[mhStart..cidLength]).Failure? {
      return br.len, Invalid;
    }
    return br.len, Parsed(Cid(br.dst[..cidLength]));
  }

  /** The final validity check of the reader always passes. */
  lemma {:induction false} DigestAccepted(data: seq<Byte>, n0: nat, n1: nat, n2: nat, n3: nat, mhl: nat)
    requires V1Header(data, n0, n1, n2, n3, mhl) && mhl <= 0x7FFF_FFFF && n0 + n1 + n2 + n3 + mhl <= |data|
    ensures ReadMultihash(data[n0 + n1..n0 + n1 + n2 + n3 + mhl]).Success?
  {
    hide FromUvarint, Encode;
    var tail := data[n0 + n1..];
    assert tail[n2..] == data[n0 + n1 + n2..];
    FromUvarintLen(tail);
    FromUvarintLen(tail[n2..]);
    var mh := ReadMultihash(tail).value;
    ReadMultihashExact(tail, mh);
    var exact := tail[..mh.len];
    ReadMultihashExact(exact, mh);
    assert exact == data[n0 + n1..n0 + n1 + n2 + n3 + mhl];
  }

  // ---------------------------------------------------------------- a digest only the slice parser takes

  /** One byte more than the reader allocates for. */
  function LongDigest(): (d: seq<Byte>)
    ensures |d| == 0x200_0001
  {
    seq(0x200_0001, _ => 0)
  }

  /** The slice parser accepts this CID, and every answer the reader may give on it is a refusal. */
  lemma {:induction false} LongDigestRefused(codec: u64, n: nat, c: ReadResult)
    requires codec < 0x8000_0000_0000_0000
    requires Agrees(NewCidV1(codec, EncodeMultihash(0, LongDigest())).str, n, c)
    ensures CidFromBytes(NewCidV1(codec, EncodeMultihash(0, LongDigest())).str).Success?
    ensures !c.Parsed?
  {
    var m := EncodeMultihash(0, LongDigest());
    var mh := Multihash(|m|, 0, LongDigest());
    assert m == m[..|m|];
    hide Encode, FromUvarint, Varint63, CidFromBytes, LongDigest, PrefixOf;
    MultihashReads(m, mh);
    assert NewCidV1(codec, m).str + [] == NewCidV1(codec, m).str;
    V1Parses(codec, m, []);
    V1Accessors(codec, m);
  }
}
