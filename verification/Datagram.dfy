/** The header every request and reply starts with (rheader_t), and the three
    result codes every reply carries. */
module Datagram {
  import opened Bytes

  const BUFSIZE: nat := 10240

  const REQUEST_ADDRINFO: Word32 := 0
  const RESPONSE_ADDRINFO: Word32 := 1
  const REQUEST_NAMEINFO: Word32 := 2
  const RESPONSE_NAMEINFO: Word32 := 3
  const REQUEST_RES_QUERY: Word32 := 4
  const REQUEST_RES_SEARCH: Word32 := 5
  const RESPONSE_RES: Word32 := 6
  const REQUEST_TERMINATE: Word32 := 7
  const RESPONSE_DIED: Word32 := 8

  const HEADER: nat := 16

  datatype Header = Header(kind: Word32, id: Word32, length: nat)
  datatype Status = Status(ret: Int32, err: Int32, hErr: Int32)

  function PutHeader(h: Header): (s: seq<Byte>)
    ensures |s| == HEADER
  {
    LE(h.kind, UINT) + LE(h.id, UINT) + LE(h.length, SIZE_T)
  }

  function GetHeader(b: seq<Byte>): Header
    requires |b| >= HEADER
  {
    RangeValues();
    Header(UnLE(b[0..4]), UnLE(b[4..8]), UnLE(b[8..16]))
  }

  /** Where the fields stand. */
  lemma HeaderLayout(b: seq<Byte>)
    requires |b| >= HEADER
    ensures GetHeader(b).kind == UnLE(b[0..4]) && GetHeader(b).id == UnLE(b[4..8])
    ensures GetHeader(b).length == UnLE(b[8..16])
  {
  }

  lemma HeaderRoundTrip(h: Header, rest: seq<Byte>)
    requires h.length < Range(SIZE_T)
    ensures GetHeader(PutHeader(h) + rest) == h
  {
    hide LE, UnLE, Range;
    RangeValues();
    var b := PutHeader(h) + rest;
    assert b[0..4] == LE(h.kind, UINT) && b[4..8] == LE(h.id, UINT) && b[8..16] == LE(h.length, SIZE_T);
    UnLEOfLE(h.kind, UINT);
    UnLEOfLE(h.id, UINT);
    UnLEOfLE(h.length, SIZE_T);
  }

  function PutStatus(s: Status): (b: seq<Byte>)
    ensures |b| == 12
  {
    PutInt(s.ret) + PutInt(s.err) + PutInt(s.hErr)
  }

  function GetStatus(b: seq<Byte>): Status
    requires |b| == 12
  {
    Status(GetInt(b[0..4]), GetInt(b[4..8]), GetInt(b[8..12]))
  }

  lemma StatusLayout(b: seq<Byte>)
    requires |b| == 12
    ensures GetStatus(b).ret == GetInt(b[0..4]) && GetStatus(b).err == GetInt(b[4..8])
    ensures GetStatus(b).hErr == GetInt(b[8..12])
  {
  }

  lemma StatusRoundTrip(s: Status)
    ensures GetStatus(PutStatus(s)) == s
  {
    hide PutInt, GetInt;
    var b := PutStatus(s);
    assert b[0..4] == PutInt(s.ret) && b[4..8] == PutInt(s.err) && b[8..12] == PutInt(s.hErr);
    IntRoundTrip(s.ret);
    IntRoundTrip(s.err);
    IntRoundTrip(s.hErr);
  }

  /** Structure padding, cleared by the memset before the fields are stored. */
  function Padding(n: nat): (s: seq<Byte>)
    ensures |s| == n
  {
    seq(n, _ => 0)
  }
}
