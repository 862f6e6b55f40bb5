/** The fixed-width row record and its binary layout inside a page. */
module RowCodec {
  import opened Bytes
  import opened Layout

  /** A row as the record holds it: a 32-bit id and two fixed-capacity byte
      fields. The text fields are raw bytes of their full width. */
  datatype Row = Row(id: uint32, username: seq<byte>, email: seq<byte>)
  {
    predicate WellFormed()
    {
      |username| == USERNAME_SIZE && |email| == EMAIL_SIZE
    }
  }

  /** The ROW_SIZE-byte block of a row: id, username and email at their
      schema offsets. */
  function Encode(r: Row): (b: seq<byte>)
    requires r.WellFormed()
    ensures |b| == ROW_SIZE
    ensures b[ID_OFFSET..USERNAME_OFFSET] == EncodeWord(r.id)
    ensures b[USERNAME_OFFSET..EMAIL_OFFSET] == r.username
    ensures b[EMAIL_OFFSET..ROW_SIZE] == r.email
  {
    EncodeWord(r.id) + r.username + r.email
  }

  /** Reads each field back from its fixed offset; never reads outside the block. */
  function Decode(b: seq<byte>): (r: Row)
    requires |b| == ROW_SIZE
    ensures r.WellFormed()
  {
    Row(DecodeWord(b[ID_OFFSET..USERNAME_OFFSET]),
        b[USERNAME_OFFSET..EMAIL_OFFSET],
        b[EMAIL_OFFSET..ROW_SIZE])
  }

  /** Decoding inverts encoding, and every block is the encoding of the row
      it decodes to: the codec is a bijection on well-formed rows. */
  lemma CodecRoundTrip(r: Row, b: seq<byte>)
    requires r.WellFormed() && |b| == ROW_SIZE
    ensures Decode(Encode(r)) == r
    ensures Encode(Decode(b)) == b
  {
    var e := Encode(r);
    WordRoundTrip(r.id, e[ID_OFFSET..USERNAME_OFFSET]);
    WordRoundTrip(r.id, b[ID_OFFSET..USERNAME_OFFSET]);
    assert b == b[ID_OFFSET..USERNAME_OFFSET] + b[USERNAME_OFFSET..EMAIL_OFFSET] + b[EMAIL_OFFSET..ROW_SIZE];
  }

  /** Copies the encoded row into `dest` at byte `at`; every byte outside
      [at, at + ROW_SIZE) is left as it was. */
  function SerializeRow(r: Row, dest: seq<byte>, at: nat): (d: seq<byte>)
    requires r.WellFormed() && at + ROW_SIZE <= |dest|
    ensures |d| == |dest|
    ensures d[at..at + ROW_SIZE] == Encode(r)
    ensures forall k :: 0 <= k < |dest| && (k < at || at + ROW_SIZE <= k) ==> d[k] == dest[k]
  {
    dest[..at] + Encode(r) + dest[at + ROW_SIZE..]
  }

  /** Decodes the ROW_SIZE bytes of `src` that start at `at`: the row whose
      encoding is exactly those bytes. */
  function DeserializeRow(src: seq<byte>, at: nat): (r: Row)
    requires at + ROW_SIZE <= |src|
    ensures r.WellFormed()
    ensures Encode(r) == src[at..at + ROW_SIZE]
  {
    CodecRoundTrip(Decode(src[at..at + ROW_SIZE]), src[at..at + ROW_SIZE]);
    Decode(src[at..at + ROW_SIZE])
  }

  lemma SerializeDeserialize(r: Row, dest: seq<byte>, at: nat)
    requires r.WellFormed() && at + ROW_SIZE <= |dest|
    ensures DeserializeRow(SerializeRow(r, dest, at), at) == r
  {
    CodecRoundTrip(r, Encode(r));
  }

  /** Serializing into one slot leaves the row decoded from any disjoint slot unchanged. */
  lemma SerializeFrame(r: Row, dest: seq<byte>, at: nat, other: nat)
    requires r.WellFormed() && at + ROW_SIZE <= |dest| && other + ROW_SIZE <= |dest|
    requires at + ROW_SIZE <= other || other + ROW_SIZE <= at
    ensures DeserializeRow(SerializeRow(r, dest, at), other) == DeserializeRow(dest, other)
  {
    var d := SerializeRow(r, dest, at);
    assert d[other..other + ROW_SIZE] == dest[other..other + ROW_SIZE];
  }
}
