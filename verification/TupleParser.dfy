/** The kernels' tuple parser: reads attribute after attribute from a byte stream, keeping two offsets. */
module TupleParser {
  import opened Machine
  import opened Streams
  import opened Lineitem

  const NMRC_FIELD_SZ: nat := 16

  class TupParser {
    var off: nat
    var pgOff: nat

    /** Repacked pages have lost their two count bytes to the header stage; native ones are whole. */
    constructor (native: bool)
      ensures off == 0 && pgOff == if native then 0 else 2
    {
      off, pgOff := 0, if native then 0 else 2;
    }

    method StartTup()
      modifies `off
      ensures off == 0
    {
      off := 0;
    }

    method GetByte(stream: Stream<byte>) returns (ch: byte)
      requires |stream.q| > 0
      modifies `pgOff, stream
      ensures pgOff == old(pgOff) + 1
      ensures ch == old(stream.q)[0] && stream.q == old(stream.q)[1..]
    {
      pgOff := pgOff + 1;
      ch := stream.Read();
    }

    /** Moves to the start of attribute fPtr and tells its length; `bs` is the stream from the tuple's first byte on. */
    method GetFieldLen(fPtr: nat, stream: Stream<byte>, ghost bs: seq<byte>) returns (fLen: nat)
      requires fPtr < ATTRS && off <= |bs| && stream.q == bs[off..] && FieldOk(bs, fPtr, off)
      modifies this, stream
      ensures fLen == FieldLen(bs, fPtr, old(off)) && off == FieldStart(fPtr, old(off)) <= |bs|
      ensures stream.q == bs[off..]
      ensures pgOff - off == old(pgOff - off)
    {
      if AttrLen(fPtr) != -1 {
        fLen := AttrLen(fPtr);
        if Aligned(fPtr) {
          var aoff := IntAlign(off);
          if aoff != off {
            var first := off;
            for i := first to aoff
              invariant off == i <= aoff && stream.q == bs[off..]
              invariant pgOff - off == old(pgOff - off)
            {
              var _ := GetByte(stream);
              off := off + 1;
            }
          }
        }
        return;
      }
      var ch := GetByte(stream);
      off := off + 1;
      fLen := ch as int / 2 - 1;
    }

    /** Reads the attribute's bytes into the front of fData. */
    method GetField(fData: array<byte>, fLen: nat, stream: Stream<byte>, ghost bs: seq<byte>)
      requires fLen <= fData.Length && off + fLen <= |bs| && stream.q == bs[off..]
      modifies this, stream, fData
      ensures off == old(off) + fLen && stream.q == bs[off..]
      ensures fData[..fLen] == bs[old(off)..off] && fData[fLen..] == old(fData[fLen..])
      ensures pgOff - off == old(pgOff - off)
    {
      for i := 0 to fLen
        invariant off == old(off) && pgOff == old(pgOff) + i
        invariant stream.q == bs[off + i..]
        invariant fData[..i] == bs[off..off + i] && fData[fLen..] == old(fData[fLen..])
      {
        var ch := GetByte(stream);
        fData[i] := ch;
      }
      off := off + fLen;
    }

    method SkipBytes(fLen: nat, stream: Stream<byte>, ghost bs: seq<byte>)
      requires off + fLen <= |bs| && stream.q == bs[off..]
      modifies this, stream
      ensures off == old(off) + fLen && stream.q == bs[off..]
      ensures pgOff - off == old(pgOff - off)
    {
      off := off + fLen;
      for i := 0 to fLen
        invariant off == old(off) + fLen && pgOff == old(pgOff) + i
        invariant stream.q == bs[old(off) + i..]
      {
        var _ := GetByte(stream);
      }
    }

    /** Drains the page from the page offset on. */
    method SkipToPageEnd(stream: Stream<byte>)
      requires pgOff + |stream.q| == PAGE_SZ
      modifies this, stream
      ensures stream.q == [] && pgOff == PAGE_SZ && off == old(off)
    {
      var first := pgOff;
      for i := first to PAGE_SZ
        invariant pgOff == i && pgOff + |stream.q| == PAGE_SZ && off == old(off)
      {
        var _ := GetByte(stream);
      }
    }
  }
}
