/** The buffered writer and reader that sit between the frame code and the connection. */
module BufferedIO {
  import opened Octets
  import opened Masking

  /** The connection: it takes octets until, at a point nobody knows, it fails. */
  class Sink {
    var accepted: seq<byte>
    var room: nat
    const capacity: nat

    constructor (room: nat)
      ensures accepted == [] && this.room == capacity == room
    {
      accepted, this.room, capacity := [], room, room;
    }

    method Write(p: seq<byte>) returns (n: nat, ok: bool)
      modifies this
      ensures n == (if |p| <= old(room) then |p| else old(room))
      ensures ok == (n == |p|)
      ensures accepted == old(accepted) + p[..n] && room == old(room) - n
    {
      n := if |p| <= room then |p| else room;
      ok := n == |p|;
      accepted, room := accepted + p[..n], room - n;
    }
  }

  /** A bufio.Writer: a fixed buffer, the number of octets in it, and a sticky error. */
  class BufWriter {
    const buf: array<byte>
    const sink: Sink
    var n: nat
    var failed: bool
    ghost var written: seq<byte>  // every octet handed to the writer so far, as it is meant to reach the peer

    ghost predicate Valid()
      reads this, buf, sink
    {
      && 0 < buf.Length
      && n <= buf.Length
      && sink.accepted <= written
      && (!failed ==> sink.accepted + buf[..n] == written)
      && |sink.accepted| + sink.room == sink.capacity
      && (failed ==> sink.room == 0)
    }

    constructor (size: nat, sink: Sink)
      requires size > 0 && sink.accepted == [] && sink.room == sink.capacity
      ensures Valid() && written == [] && !failed && n == 0
      ensures this.sink == sink && fresh(buf) && buf.Length == size
    {
      buf := new byte[size];
      this.sink := sink;
      n, failed, written := 0, false, [];
    }

    function Available(): nat
      reads this
      requires n <= buf.Length
    {
      buf.Length - n
    }

    /** Sends the buffer; a short write keeps the rest at the front of the buffer and makes the error stick. */
    method Flush() returns (ok: bool)
      requires Valid()
      modifies this, buf, sink
      ensures Valid() && written == old(written)
      ensures ok == !failed
      ensures old(failed) ==> failed && sink.accepted == old(sink.accepted)
      ensures ok ==> n == 0
      ensures n <= old(n)
    {
      if failed {
        return false;
      }
      if n == 0 {
        return true;
      }
      var taken, done := sink.Write(buf[..n]);
      if !done {
        if 0 < taken < n {
          var rest := buf[taken..n];
          Store(buf, 0, rest);
        }
        n := n - taken;
        failed := true;
        return false;
      }
      n := 0;
      return true;
    }

    method WriteByte(c: byte) returns (ok: bool)
      requires Valid()
      modifies this, buf, sink
      ensures Valid() && ok == !failed
      ensures written == old(written) + [c]
      ensures old(failed) ==> failed && sink.accepted == old(sink.accepted)
    {
      if failed {
        written := written + [c];
        return false;
      }
      if Available() == 0 {
        var flushed := Flush();
        if !flushed {
          written := written + [c];
          return false;
        }
      }
      buf[n] := c;
      n := n + 1;
      written := written + [c];
      assert buf[..n] == buf[..n - 1] + [c];
      return true;
    }

    /** Copies into the free space; the caller has made sure that p fits. */
    method Append(p: seq<byte>)
      requires Valid() && |p| <= Available() && !failed
      modifies this, buf
      ensures Valid() && !failed
      ensures n == old(n) + |p| && buf[..n] == old(buf[..n]) + p
      ensures written == old(written) + p
    {
      Store(buf, n, p);
      n := n + |p|;
      written := written + p;
    }

    /** One round for a p that does not fit: fill and flush, or, on an empty buffer, write p straight out. */
    method WriteThrough(p: seq<byte>) returns (k: nat)
      requires Valid() && !failed && |p| > Available()
      modifies this, buf, sink
      ensures Valid() && k <= |p| && written == old(written) + p[..k]
      ensures k > 0 || failed || n < old(n)
    {
      if n == 0 {
        var taken, done := sink.Write(p);
        failed := !done;
        written := written + p[..taken];
        return taken;
      }
      k := Available();
      Append(p[..k]);
      var flushed := Flush();
    }

    /** Writes p; large writes on an empty buffer bypass it. A p that fits is only copied. */
    method Write(p: seq<byte>) returns (ok: bool)
      requires Valid()
      modifies this, buf, sink
      ensures Valid() && ok == !failed
      ensures written == old(written) + p
      ensures old(failed) ==> failed && sink.accepted == old(sink.accepted)
      ensures !old(failed) && |p| <= old(Available()) ==>
                ok && n == old(n) + |p| && buf[..n] == old(buf[..n]) + p && sink.accepted == old(sink.accepted)
    {
      var rest := p;
      while |rest| > Available() && !failed
        invariant Valid() && written + rest == old(written) + p
        invariant old(failed) ==> failed && sink.accepted == old(sink.accepted)
        invariant !old(failed) && |p| <= old(Available()) ==>
                    && rest == p && !failed && n == old(n) && buf[..n] == old(buf[..n])
                    && sink.accepted == old(sink.accepted)
        decreases |rest|, !failed, n
      {
        var k := WriteThrough(rest);
        assert rest == rest[..k] + rest[k..];
        rest := rest[k..];
      }
      if failed {
        written := written + rest;
        return false;
      }
      Append(rest);
      return true;
    }
  }

  /** A bufio.Reader over what the peer has sent: the octets not read yet. */
  class BufReader {
    var rest: seq<byte>

    constructor (input: seq<byte>)
      ensures rest == input
    {
      rest := input;
    }

    method ReadByte() returns (b: byte, ok: bool)
      modifies this
      ensures ok == (old(rest) != [])
      ensures ok ==> b == old(rest)[0] && rest == old(rest)[1..]
      ensures !ok ==> rest == old(rest)
    {
      if rest == [] {
        return 0, false;
      }
      b, rest, ok := rest[0], rest[1..], true;
    }

    /** io.ReadFull into p[lo..hi]; on a short input it takes what there is. */
    method ReadFull(p: array<byte>, lo: nat, hi: nat) returns (ok: bool)
      requires lo <= hi <= p.Length
      modifies this, p
      ensures ok == (|old(rest)| >= hi - lo)
      ensures ok ==> p[lo..hi] == old(rest)[..hi - lo] && rest == old(rest)[hi - lo..]
      ensures !ok ==> p[lo..lo + |old(rest)|] == old(rest) && rest == []
      ensures p[..lo] == old(p[..lo]) && p[hi..] == old(p[hi..])
    {
      var k := if hi - lo <= |rest| then hi - lo else |rest|;
      Store(p, lo, rest[..k]);
      rest := rest[k..];
      ok := k == hi - lo;
    }
  }
}
