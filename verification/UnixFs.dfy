/** The dag-pb block of a single UnixFS file (cmd/ipfs/add.go), and the protobuf wire format it is
    read back with ("Base 128 Varints" and "Length-Delimited Records" of the Protocol Buffers
    encoding guide). */
module UnixFs {
  import opened Words
  import opened Varint

  // ---------------------------------------------------------------- the wire format

  /** A field of wire type 0 or of wire type 2. */
  datatype Field = VarintField(num: nat, value: nat) | BytesField(num: nat, data: seq<Byte>)

  datatype Parsed = Fields(fields: seq<Field>) | Malformed

  function WriteField(f: Field): seq<Byte> {
    match f
    case VarintField(num, value) => Encode(num * 8) + Encode(value)
    case BytesField(num, data) => Encode(num * 8 + 2) + Encode(|data|) + data
  }

  datatype OneField = One(field: Field, len: nat) | NoField

  /** Read one field: a key, then a varint or a length-delimited payload. */
  function ReadField(buf: seq<Byte>): (r: OneField)
    ensures r.One? ==> 0 < r.len <= |buf|
  {
    var key := Uvarint(buf);
    if key.Err? then NoField
    else
      UvarintExact(buf, key.value, key.len);
      var rest := buf[key.len..];
      var v := Uvarint(rest);
      if v.Err? then NoField
      else
        UvarintExact(rest, v.value, v.len);
        if key.value % 8 == 0 then One(VarintField(key.value / 8, v.value), key.len + v.len)
        else if key.value % 8 == 2 && v.value <= |rest| - v.len then
          One(BytesField(key.value / 8, rest[v.len..v.len + v.value]), key.len + v.len + v.value)
        else NoField
  }

  /** Read fields until the input is used up. */
  function ReadFields(buf: seq<Byte>): Parsed {
    if buf == [] then Fields([])
    else
      var one := ReadField(buf);
      if one.NoField? then Malformed
      else
        var rest := ReadFields(buf[one.len..]);
        if rest.Malformed? then Malformed else Fields([one.field] + rest.fields)
  }

  /** Field numbers and values that fit the 64-bit key and value varints. */
  predicate Writable(f: Field) {
    && f.num * 8 + 2 < 0x1_0000_0000_0000_0000
    && match f
       case VarintField(_, value) => value < 0x1_0000_0000_0000_0000
       case BytesField(_, data) => |data| < 0x1_0000_0000_0000_0000
  }

  lemma {:induction false} DecodeEncoded(v: nat, suffix: seq<Byte>)
    requires v < 0x1_0000_0000_0000_0000
    ensures Uvarint(Encode(v) + suffix) == Ok(v, |Encode(v)|)
    ensures (Encode(v) + suffix)[|Encode(v)|..] == suffix
  {
    UvarintExact(Encode(v) + suffix, v, |Encode(v)|);
  }

  /** Reading back a written field consumes exactly that field. */
  lemma {:induction false} ReadWritten(f: Field, suffix: seq<Byte>)
    requires Writable(f)
    ensures ReadField(WriteField(f) + suffix) == One(f, |WriteField(f)|)
  {
    hide Uvarint, Encode;
    match f
    case VarintField(num, value) =>
      var (k, v) := (Encode(num * 8), Encode(value));
      assert WriteField(f) + suffix == k + (v + suffix);
      DecodeEncoded(num * 8, v + suffix);
      DecodeEncoded(value, suffix);
    case BytesField(num, data) =>
      var (k, v) := (Encode(num * 8 + 2), Encode(|data|));
      assert WriteField(f) + suffix == k + (v + (data + suffix));
      DecodeEncoded(num * 8 + 2, v + (data + suffix));
      DecodeEncoded(|data|, data + suffix);
      assert (v + (data + suffix))[|v|..|v| + |data|] == data;
  }

  function WriteFields(fs: seq<Field>): seq<Byte> {
    if fs == [] then [] else WriteField(fs[0]) + WriteFields(fs[1..])
  }

  lemma {:induction false} ReadFieldsCons(f: Field, head: seq<Byte>, tail: seq<Byte>, rest: seq<Field>)
    requires ReadField(head + tail) == One(f, |head|) && ReadFields(tail) == Fields(rest)
    ensures ReadFields(head + tail) == Fields([f] + rest)
  {
    hide ReadField;
    assert (head + tail)[|head|..] == tail;
  }

  /** The wire format round trip for any list of fields. */
  lemma {:induction false} ReadAllWritten(fs: seq<Field>)
    requires forall i :: 0 <= i < |fs| ==> Writable(fs[i])
    ensures ReadFields(WriteFields(fs)) == Fields(fs)
  {
    hide Writable, WriteField, ReadField;
    if fs != [] {
      var (f, rest) := (fs[0], fs[1..]);
      assert forall i :: 0 <= i < |rest| ==> rest[i] == fs[i + 1];
      ReadAllWritten(rest);
      var (head, tail) := (WriteField(f), WriteFields(rest));
      ReadWritten(f, tail);
      ReadFieldsCons(f, head, tail, rest);
      assert fs == [f] + rest;
    }
  }

  // ---------------------------------------------------------------- the encoder of the source

  method AppendVarintField(buf: seq<Byte>, num: nat, v: u64) returns (r: seq<Byte>)
    requires num * 8 < 0x1_0000_0000_0000_0000
    ensures r == buf + WriteField(VarintField(num, v))
  {
    hide Encode;
    r := AppendUvarint(buf, num * 8);
    r := AppendUvarint(r, v);
  }

  method AppendBytesField(buf: seq<Byte>, num: nat, data: seq<Byte>) returns (r: seq<Byte>)
    requires num * 8 + 2 < 0x1_0000_0000_0000_0000 && |data| < 0x8000_0000_0000_0000
    ensures r == buf + WriteField(BytesField(num, data))
  {
    hide Encode;
    r := AppendUvarint(buf, num * 8 + 2);
    r := AppendUvarint(r, |data|);
    r := r + data;
  }

  const FILE_TYPE: nat := 2

  /** The three fields of the UnixFS message. */
  function UnixFsFields(data: seq<Byte>): seq<Field> {
    [VarintField(1, FILE_TYPE), BytesField(2, data), VarintField(3, |data|)]
  }

  function UnixFsMessage(data: seq<Byte>): seq<Byte> {
    WriteFields(UnixFsFields(data))
  }

  /** A block holds one outer Data field whose payload is a UnixFS file message for this content,
      with no bytes left over at either level. */
  ghost predicate Describes(block: seq<Byte>, data: seq<Byte>) {
    exists inner: seq<Byte> ::
      && ReadFields(block) == Fields([BytesField(1, inner)])
      && ReadFields(inner) == Fields([VarintField(1, 2), BytesField(2, data), VarintField(3, |data|)])
  }

  /** A described block determines its content, so the encoder is injective. */
  lemma {:induction false} DescribesOne(block: seq<Byte>, d: seq<Byte>, e: seq<Byte>)
    requires Describes(block, d) && Describes(block, e)
    ensures d == e
  {
    var i :| ReadFields(block) == Fields([BytesField(1, i)])
          && ReadFields(i) == Fields([VarintField(1, 2), BytesField(2, d), VarintField(3, |d|)]);
    var j :| ReadFields(block) == Fields([BytesField(1, j)])
          && ReadFields(j) == Fields([VarintField(1, 2), BytesField(2, e), VarintField(3, |e|)]);
    assert [BytesField(1, i)][0] == [BytesField(1, j)][0];
    assert UnixFsFields(d)[1] == UnixFsFields(e)[1];
  }

  lemma {:induction false} BlockDescribes(block: seq<Byte>, inner: seq<Byte>, data: seq<Byte>)
    requires |inner| < 0x1_0000_0000_0000_0000 && |data| < 0x1_0000_0000_0000_0000
    requires inner == UnixFsMessage(data) && block == WriteField(BytesField(1, inner))
    ensures Describes(block, data)
  {
    hide ReadFields, WriteFields, WriteField;
    ReadAllWritten(UnixFsFields(data));
    var outer := BytesField(1, inner);
    WriteOne(outer);
    ReadAllWritten([outer]);
  }

  lemma {:induction false} WriteOne(f: Field)
    ensures WriteFields([f]) == WriteField(f)
  {
    hide WriteField;
    assert [f][1..] == [];
  }

  lemma {:induction false} ThreeFields(a: Field, b: Field, c: Field)
    ensures WriteFields([a, b, c]) == WriteField(a) + WriteField(b) + WriteField(c)
  {
    hide WriteField;
    var fs := [a, b, c];
    assert fs[1..] == [b, c] && [b, c][1..] == [c];
    WriteOne(c);
    assert WriteFields([b, c]) == WriteField(b) + WriteFields([c]);
  }

  lemma {:induction false} SmallFields(num: nat, value: nat, data: seq<Byte>)
    requires num < 15 && value < 0x80 && |data| < 0x80
    ensures WriteField(VarintField(num, value)) == [num * 8, value]
    ensures WriteField(BytesField(num, data)) == [num * 8 + 2, |data|] + data
  {
  }

  /** The bytes of the block for the one-byte file "a". */
  lemma {:induction false} BlockOfA()
    ensures WriteField(BytesField(1, UnixFsMessage([0x61]))) == [0x0A, 7, 8, 2, 0x12, 1, 0x61, 0x18, 1]
  {
    hide WriteField, WriteFields;
    ThreeFields(VarintField(1, 2), BytesField(2, [0x61]), VarintField(3, 1));
    SmallFields(1, 2, []);
    SmallFields(2, 0, [0x61]);
    SmallFields(3, 1, []);
    var inner := UnixFsMessage([0x61]);
    assert inner == [8, 2] + ([0x12, 1] + [0x61]) + [0x18, 1];
    assert inner == [8, 2, 0x12, 1, 0x61, 0x18, 1];
    SmallFields(1, 0, inner);
  }

  /** The lengths of both slices are Go ints, below 2^63. */
  method EncodeUnixFsFileBlock(data: seq<Byte>) returns (block: seq<Byte>)
    requires |UnixFsMessage(data)| < 0x8000_0000_0000_0000
    ensures Describes(block, data)
  {
    hide WriteField, WriteFields, ReadFields, UnixFsMessage;
    MessageLayout(data);
    var unixfs: seq<Byte> := [];
    unixfs := AppendVarintField(unixfs, 1, FILE_TYPE);
    unixfs := AppendBytesField(unixfs, 2, data);
    unixfs := AppendVarintField(unixfs, 3, |data|);
    assert unixfs == UnixFsMessage(data);
    block := AppendBytesField([], 1, unixfs);
    BlockDescribes(block, unixfs, data);
  }

  lemma {:induction false} MessageLayout(data: seq<Byte>)
    ensures UnixFsMessage(data) == WriteField(VarintField(1, FILE_TYPE)) + WriteField(BytesField(2, data))
                                   + WriteField(VarintField(3, |data|))
    ensures |data| < |UnixFsMessage(data)|
  {
    var (a, b, c) := (VarintField(1, FILE_TYPE), BytesField(2, data), VarintField(3, |data|));
    assert UnixFsFields(data) == [a, b, c];
    assert [a, b, c][1..] == [b, c] && [b, c][1..] == [c] && [c][1..] == [];
    EncodeMinimal(18);
    hide Encode;
    assert WriteFields([c]) == WriteField(c);
    assert WriteFields([b, c]) == WriteField(b) + WriteField(c);
    assert WriteFields([a, b, c]) == WriteField(a) + (WriteField(b) + WriteField(c));
  }
}
