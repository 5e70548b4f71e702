/** lib/PP/transmission_serializer.c: a flat image of a transmission whose later offsets depend on its data length. */
module Serializers {
  import opened Bytes

  const HEADER := 22
  const TRAILER := 14
  /** sizeof(transmission) less its two pointers, on LP64: what the source allocates beside the data. */
  const SERIALIZED_SIZE_WITHOUT_DATA := 72

  datatype Image = Image(bytes: nat, chunkSize: nat, open: int, error: int, errorLen: nat,
                         data: seq<byte>, connError: int, fd: int, maxBytes: nat)
  {
    /** Every field is in the range of its C type, and the data is as long as the header says. */
    ghost predicate Valid() {
      && bytes == |data| && bytes < Span(8) && chunkSize < Span(4) && errorLen < Span(8) && maxBytes < Span(8)
      && InSigned(open, 1) && InSigned(error, 1) && InSigned(connError, 2) && InSigned(fd, 4)
    }
  }

  /** One field: where it starts and the bytes it holds. */
  datatype Field = Field(at: nat, content: seq<byte>)

  /** The nine copies of the source, with the offsets it computes. */
  function Layout(t: Image): (fs: seq<Field>)
    requires t.Valid()
  {
    [Field(0, Le(t.bytes, 8)),
     Field(8, Le(t.chunkSize, 4)),
     Field(8 + 4, Le(Unsigned(t.open, 1), 1)),
     Field(8 + 4 + 1, Le(Unsigned(t.error, 1), 1)),
     Field(8 + 4 + 1 + 1, Le(t.errorLen, 8)),
     Field(8 + 4 + 1 + 1 + 8, t.data),
     Field(8 + 4 + 1 + 1 + 8 + t.bytes, Le(Unsigned(t.connError, 2), 2)),
     Field(8 + 4 + 1 + 1 + 8 + t.bytes + 2, Le(Unsigned(t.fd, 4), 4)),
     Field(8 + 4 + 1 + 1 + 8 + t.bytes + 2 + 4, Le(t.maxBytes, 8))]
  }

  /** The fields from the front, without gap or overlap. */
  ghost predicate Contiguous(fs: seq<Field>, at: nat, end: nat) {
    if fs == [] then at == end
    else fs[0].at == at && Contiguous(fs[1..], at + |fs[0].content|, end)
  }

  function Joined(fs: seq<Field>): (s: seq<byte>) {
    if fs == [] then [] else fs[0].content + Joined(fs[1..])
  }

  /** The regions tile 36 + bytes bytes exactly, which stay within the source's allocation. */
  lemma LayoutTiles(t: Image)
    requires t.Valid()
    ensures Contiguous(Layout(t), 0, HEADER + t.bytes + TRAILER)
    ensures HEADER + t.bytes + TRAILER == 36 + t.bytes <= SERIALIZED_SIZE_WITHOUT_DATA + t.bytes
  {
    var fs := Layout(t);
    var n, end := t.bytes, HEADER + t.bytes + TRAILER;
    assert fs[9..] == [];
    ContiguousFrom(fs, 8, 28 + n, end);
    ContiguousFrom(fs, 7, 24 + n, end);
    ContiguousFrom(fs, 6, 22 + n, end);
    ContiguousFrom(fs, 5, 22, end);
    ContiguousFrom(fs, 4, 14, end);
    ContiguousFrom(fs, 3, 13, end);
    ContiguousFrom(fs, 2, 12, end);
    ContiguousFrom(fs, 1, 8, end);
    ContiguousFrom(fs, 0, 0, end);
    assert fs[0..] == fs;
  }

  lemma ContiguousFrom(fs: seq<Field>, i: nat, at: nat, end: nat)
    requires i < |fs| && fs[i].at == at && Contiguous(fs[i + 1..], at + |fs[i].content|, end)
    ensures Contiguous(fs[i..], at, end)
  {
    assert fs[i..][1..] == fs[i + 1..];
  }

  lemma {:induction false} ContiguousFields(fs: seq<Field>, at: nat, end: nat, i: nat)
    requires Contiguous(fs, at, end) && i < |fs|
    ensures at <= fs[i].at && fs[i].at + |fs[i].content| <= end
    ensures |Joined(fs)| == end - at
    ensures Joined(fs)[fs[i].at - at..][..|fs[i].content|] == fs[i].content
  {
    var n := |fs[0].content|;
    if |fs| > 1 {
      ContiguousFields(fs[1..], at + n, end, if i == 0 then 0 else i - 1);
      if i > 0 {
        assert fs[1..][i - 1] == fs[i];
        assert Joined(fs)[fs[i].at - at..] == Joined(fs[1..])[fs[i].at - at - n..];
      }
    } else {
      assert fs[1..] == [] && Joined(fs) == fs[0].content;
    }
  }

  /** A buffer starts with a serialized t. */
  ghost predicate Holds(s: seq<byte>, t: Image)
    requires t.Valid()
  {
    Joined(Layout(t)) <= s
  }

  lemma InsidePrefix(front: seq<byte>, s: seq<byte>, at: nat, n: nat)
    requires front <= s && at + n <= |front|
    ensures s[at..at + n] == front[at..][..n]
  {
    assert s[..|front|] == front;
    assert s[..|front|][at..at + n] == s[at..at + n];
  }

  /** Every field can be read back at its own offset, whatever trails the image. */
  lemma FieldAt(s: seq<byte>, t: Image, i: nat)
    requires t.Valid() && Holds(s, t) && i < 9
    ensures var f := Layout(t)[i]; f.at + |f.content| <= |s| && s[f.at..f.at + |f.content|] == f.content
  {
    var fs := Layout(t);
    var f := fs[i];
    LayoutTiles(t);
    ContiguousFields(fs, 0, HEADER + t.bytes + TRAILER, i);
    InsidePrefix(Joined(fs), s, f.at, |f.content|);
  }

  /** One memcpy of the source: field i of the layout, put behind the fields before it. */
  method PutField(buffer: array<byte>, at: nat, src: seq<byte>, ghost fs: seq<Field>, ghost i: nat)
    requires i < |fs| && fs[i] == Field(at, src) && at + |src| <= buffer.Length
    requires buffer[..at] == Joined(fs[..i])
    modifies buffer
    ensures buffer[..at + |src|] == Joined(fs[..i + 1])
  {
    MemCpy(buffer, at, src);
    JoinedStep(fs, i);
  }

  lemma {:induction false} JoinedStep(fs: seq<Field>, i: nat)
    requires i < |fs|
    ensures Joined(fs[..i + 1]) == Joined(fs[..i]) + fs[i].content
  {
    if i == 0 {
      assert fs[..1][1..] == [];
    } else {
      assert fs[..i + 1][1..] == fs[1..][..i] && fs[..i][1..] == fs[1..][..i - 1];
      JoinedStep(fs[1..], i - 1);
    }
  }

  /** The five copies in front of the data. */
  method PutHeader(buffer: array<byte>, t: Image)
    requires t.Valid() && buffer.Length >= HEADER
    modifies buffer
    ensures buffer[..HEADER] == Joined(Layout(t)[..5])
  {
    ghost var fs := Layout(t);
    PutField(buffer, 0, Le(t.bytes, 8), fs, 0);
    PutField(buffer, 8, Le(t.chunkSize, 4), fs, 1);
    PutField(buffer, 8 + 4, Le(Unsigned(t.open, 1), 1), fs, 2);
    PutField(buffer, 8 + 4 + 1, Le(Unsigned(t.error, 1), 1), fs, 3);
    PutField(buffer, 8 + 4 + 1 + 1, Le(t.errorLen, 8), fs, 4);
  }

  /** transmission_serialize. */
  method Serialize(t: Image) returns (buffer: array<byte>)
    requires t.Valid()
    ensures fresh(buffer) && buffer.Length == SERIALIZED_SIZE_WITHOUT_DATA + t.bytes
    ensures Holds(buffer[..], t)
  {
    buffer := new byte[SERIALIZED_SIZE_WITHOUT_DATA + t.bytes];
    ghost var fs := Layout(t);
    PutHeader(buffer, t);
    PutField(buffer, 8 + 4 + 1 + 1 + 8, t.data, fs, 5);
    PutField(buffer, 8 + 4 + 1 + 1 + 8 + t.bytes, Le(Unsigned(t.connError, 2), 2), fs, 6);
    PutField(buffer, 8 + 4 + 1 + 1 + 8 + t.bytes + 2, Le(Unsigned(t.fd, 4), 4), fs, 7);
    PutField(buffer, 8 + 4 + 1 + 1 + 8 + t.bytes + 2 + 4, Le(t.maxBytes, 8), fs, 8);
    assert fs[..9] == fs;
  }

  /** The number stored in the w bytes at offset at. */
  function Number(s: seq<byte>, at: nat, w: nat): (v: nat)
    requires at + w <= |s|
    ensures v < Span(w)
  {
    FromLe(s[at..at + w])
  }

  /** What transmission_deserialize reads from s; None if one of its copies would leave s. */
  function Deserialized(s: seq<byte>): (r: Option<Image>) {
    if |s| < HEADER || |s| < HEADER + Number(s, 0, 8) + TRAILER then None
    else
      var bytes := Number(s, 0, 8);
      Some(Image(bytes, Number(s, 8, 4), Signed(Number(s, 12, 1), 1), Signed(Number(s, 13, 1), 1), Number(s, 14, 8),
                 s[HEADER..HEADER + bytes],
                 Signed(Number(s, HEADER + bytes, 2), 2), Signed(Number(s, HEADER + bytes + 2, 4), 4),
                 Number(s, HEADER + bytes + 6, 8)))
  }

  /** transmission_deserialize. */
  method Deserialize(s: array<byte>) returns (r: Image)
    requires Deserialized(s[..]).Some?
    ensures Deserialized(s[..]) == Some(r)
  {
    var bytes := FromLe(s[0..8]);
    assert s[0..8] == s[..][0..8];
    assert forall i, j | 0 <= i <= j <= s.Length :: s[i..j] == s[..][i..j];
    var chunkSize := FromLe(s[8..8 + 4]);
    var open := Signed(FromLe(s[8 + 4..8 + 4 + 1]), 1);
    var error := Signed(FromLe(s[8 + 4 + 1..8 + 4 + 1 + 1]), 1);
    var errorLen := FromLe(s[8 + 4 + 1 + 1..8 + 4 + 1 + 1 + 8]);
    var at := 8 + 4 + 1 + 1 + 8;
    var data := s[at..at + bytes];
    at := at + bytes;
    var connError := Signed(FromLe(s[at..at + 2]), 2);
    var fd := Signed(FromLe(s[at + 2..at + 2 + 4]), 4);
    var maxBytes := FromLe(s[at + 2 + 4..at + 2 + 4 + 8]);
    r := Image(bytes, chunkSize, open, error, errorLen, data, connError, fd, maxBytes);
  }

  /** Where the bytes of a serialized transmission are. */
  lemma Offsets(s: seq<byte>, t: Image)
    requires t.Valid() && Holds(s, t)
    ensures |s| >= 36 + t.bytes
    ensures s[0..8] == Le(t.bytes, 8) && s[8..12] == Le(t.chunkSize, 4)
    ensures s[12..13] == Le(t.open % 0x100, 1) && s[13..14] == Le(t.error % 0x100, 1)
    ensures s[14..22] == Le(t.errorLen, 8) && s[22..22 + t.bytes] == t.data
    ensures var at := 22 + t.bytes;
            && s[at..at + 2] == Le(t.connError % 0x1_0000, 2)
            && s[at + 2..at + 6] == Le(t.fd % 0x1_0000_0000, 4) && s[at + 6..at + 14] == Le(t.maxBytes, 8)
  {
    FieldAt(s, t, 0); FieldAt(s, t, 1); FieldAt(s, t, 2); FieldAt(s, t, 3); FieldAt(s, t, 4);
    FieldAt(s, t, 5); FieldAt(s, t, 6); FieldAt(s, t, 7); FieldAt(s, t, 8);
    Spans();
    UnsignedIsModulo(t.open, 1);
    UnsignedIsModulo(t.error, 1);
    UnsignedIsModulo(t.connError, 2);
    UnsignedIsModulo(t.fd, 4);
  }

  /** A serialized transmission, whatever trails it, deserializes to itself. */
  lemma RoundTrip(t: Image, trailing: seq<byte>)
    requires t.Valid()
    ensures Deserialized(Joined(Layout(t)) + trailing) == Some(t)
  {
    FieldsComeBack(Joined(Layout(t)) + trailing, t);
    SignedInvertsUnsigned(t.open, 1);
    SignedInvertsUnsigned(t.error, 1);
    SignedInvertsUnsigned(t.connError, 2);
    SignedInvertsUnsigned(t.fd, 4);
  }

  lemma FieldsComeBack(s: seq<byte>, t: Image)
    requires t.Valid() && Holds(s, t)
    ensures |s| >= HEADER + t.bytes + TRAILER
    ensures Number(s, 0, 8) == t.bytes && Number(s, 8, 4) == t.chunkSize && Number(s, 14, 8) == t.errorLen
    ensures Number(s, 12, 1) == Unsigned(t.open, 1) && Number(s, 13, 1) == Unsigned(t.error, 1)
    ensures s[HEADER..HEADER + t.bytes] == t.data
    ensures Number(s, HEADER + t.bytes, 2) == Unsigned(t.connError, 2)
    ensures Number(s, HEADER + t.bytes + 2, 4) == Unsigned(t.fd, 4)
    ensures Number(s, HEADER + t.bytes + 6, 8) == t.maxBytes
  {
    FieldAt(s, t, 0); FromLeInvertsLe(t.bytes, 8);
    FieldAt(s, t, 1); FromLeInvertsLe(t.chunkSize, 4);
    FieldAt(s, t, 2); FromLeInvertsLe(Unsigned(t.open, 1), 1);
    FieldAt(s, t, 3); FromLeInvertsLe(Unsigned(t.error, 1), 1);
    FieldAt(s, t, 4); FromLeInvertsLe(t.errorLen, 8);
    FieldAt(s, t, 5);
    FieldAt(s, t, 6); FromLeInvertsLe(Unsigned(t.connError, 2), 2);
    FieldAt(s, t, 7); FromLeInvertsLe(Unsigned(t.fd, 4), 4);
    FieldAt(s, t, 8); FromLeInvertsLe(t.maxBytes, 8);
  }
}
