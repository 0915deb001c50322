/** Metadata tags: the 31-bit words that head every record of a directory log
    (littlefs/lfs.cpp:293-340), and the records themselves. */
module Tags {
  import opened Words

  // An 11-bit type, a 10-bit entry id and a 10-bit length.
  datatype Tag = Tag(ty: nat, id: nat, len: nat)

  // A tag with its data. The length 0x3ff marks a removal, which has no data.
  datatype Record = Record(tag: Tag, data: seq<byte>)

  const NO_ID := 0x3ff
  const REMOVED := 0x3ff

  const TYPE_REG := 0x001
  const TYPE_CREATE := 0x401
  const TYPE_DELETE := 0x4ff
  const TYPE_SOFTTAIL := 0x600
  const TYPE_HARDTAIL := 0x601
  const TYPE_CRC := 0x500
  const TYPE_MOVESTATE := 0x7ff
  const TYPE_USERATTR := 0x300

  predicate ValidTag(t: Tag) {
    t.ty < 0x800 && t.id < 0x400 && t.len < 0x400
  }

  // The upper three bits of the type (lfs_tag_type1).
  function Class(ty: nat): nat {
    ty / 256
  }

  const NAME := 0
  const FROM := 1
  const STRUCT := 2
  const USERATTR := 3
  const SPLICE := 4
  const CRC := 5
  const TAIL := 6
  const GLOBALS := 7

  // Bytes of data a tag announces (lfs_tag_dsize less the tag itself).
  function DataLen(t: Tag): nat {
    if t.len == REMOVED then 0 else t.len
  }

  function Size(t: Tag): nat {
    4 + DataLen(t)
  }

  predicate ValidRecord(r: Record) {
    ValidTag(r.tag) && |r.data| == DataLen(r.tag)
  }

  // LFS_MKTAG.
  function Pack(t: Tag): (w: uint32)
    requires ValidTag(t)
    ensures w < 0x8000_0000
  {
    t.ty * 1048576 + t.id * 1024 + t.len
  }

  function Unpack(w: uint32): (t: Tag)
    ensures w < 0x8000_0000 ==> ValidTag(t)
  {
    Tag(w / 1048576 % 2048, w / 1024 % 1024, w % 1024)
  }

  lemma UnpackPacked(t: Tag)
    requires ValidTag(t)
    ensures Unpack(Pack(t)) == t
    ensures Pack(t) / 0x10_0000 == t.ty && Pack(t) / 0x400 % 0x400 == t.id && Pack(t) % 0x400 == t.len
  {
    var v := Pack(t);
    var m := t.ty * 1024 + t.id;
    assert v == m * 1024 + t.len;
    assert v / 1024 == m && v % 1024 == t.len;
    assert m / 1024 == t.ty && m % 1024 == t.id;
    assert v / 1048576 == v / 1024 / 1024;
  }

  lemma PackUnpacked(w: uint32)
    requires w < 0x8000_0000
    ensures ValidTag(Unpack(w)) && Pack(Unpack(w)) == w
  {
    var m := w / 1024;
    assert w / 1048576 == m / 1024;
    assert w == m * 1024 + w % 1024;
    assert m == (m / 1024) * 1024 + m % 1024;
  }

  function DeleteRecord(id: nat): Record {
    Record(Tag(TYPE_DELETE, id, 0), [])
  }

  function CreateRecord(id: nat): Record {
    Record(Tag(TYPE_CREATE, id, 0), [])
  }

  function NameRecord(ty: nat, id: nat, name: seq<byte>): Record {
    Record(Tag(ty, id, |name|), name)
  }
}
