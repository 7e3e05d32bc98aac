/** Incoming bytes: what a socket, or a buffered reader on one, hands to its reader. */
module Streams {
  import opened Bytes

  /** A finite stream, handed out in pieces of any size, then end of file. */
  class ByteSource {
    const data: Octets
    var pos: nat

    ghost predicate Valid()
      reads this
    {
      pos <= |data|
    }

    ghost function Rest(): Octets
      reads this
      requires Valid()
    {
      data[pos..]
    }

    constructor (data: Octets)
      ensures Valid() && this.data == data && pos == 0
    {
      this.data := data;
      pos := 0;
    }

    method ReadByte() returns (b: Option<bv8>)
      requires Valid()
      modifies this
      ensures Valid()
      ensures if old(pos) < |data| then b == Some(data[old(pos)]) && pos == old(pos) + 1
              else b == None && pos == old(pos)
    {
      if pos < |data| {
        b := Some(data[pos]);
        pos := pos + 1;
      } else {
        b := None;
      }
    }

    /** One Read into the first `max` places of buf: between 1 and max bytes, however many have arrived. */
    method Read(buf: array<bv8>, max: nat) returns (n: nat, eof: bool)
      requires Valid() && max <= buf.Length
      modifies this, buf
      ensures Valid() && n <= max && pos == old(pos) + n
      ensures buf[..n] == data[old(pos)..pos] && buf[n..] == old(buf[n..])
      ensures eof ==> n == 0 && pos == |data|
      ensures !eof ==> n > 0 || max == 0
    {
      n, eof := 0, false;
      if pos == |data| {
        eof :| max > 0 ==> eof;  // an empty read may or may not report the end
      } else if max > 0 {
        var k: nat :| 0 < k <= max && k <= |data| - pos;
        forall i | 0 <= i < k {
          buf[i] := data[pos + i];
        }
        n := k;
        pos := pos + n;
      }
    }

    /** One Read into buf[off..off+max], max being positive. */
    method ReadAt(buf: array<bv8>, off: nat, max: nat) returns (n: nat, eof: bool)
      requires Valid() && 0 < max && off + max <= buf.Length
      modifies this, buf
      ensures Valid() && n <= max && pos == old(pos) + n
      ensures buf[..off] == old(buf[..off]) && buf[off..off + n] == data[old(pos)..pos]
      ensures eof <==> n == 0
      ensures eof ==> pos == |data|
    {
      n, eof := 0, true;
      if pos < |data| {
        var k: nat :| 0 < k <= max && k <= |data| - pos;
        forall i | 0 <= i < k {
          buf[off + i] := data[pos + i];
        }
        n, eof := k, false;
        pos := pos + n;
      }
    }
  }
}
