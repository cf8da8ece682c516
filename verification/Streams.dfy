/**
 Connections as the loops see them: bytes that arrive in chunks of any size and then end, and bytes written.
 io.ReadFull, io.TeeReader, io.CopyN(io.Discard, ..) and binary.ReadUvarint over such a connection.
 */
module Streams {
  import opened Wire

  /** The reading side: `data` is everything the peer will ever send. */
  class ByteStream {
    const data: bytes
    var pos: nat

    constructor (data: bytes)
      ensures this.data == data && pos == 0
    {
      this.data := data;
      pos := 0;
    }

    ghost predicate Valid()
      reads this
    {
      pos <= |data|
    }

    ghost function Rest(): bytes
      requires Valid()
      reads this
    {
      data[pos..]
    }

    /** One Read: some of the bytes that are left, as many as the network delivers; nothing only at the end. */
    method Read(max: nat) returns (chunk: bytes)
      requires Valid() && max > 0
      modifies this
      ensures Valid() && old(pos) <= pos && chunk == data[old(pos)..pos] && |chunk| <= max
      ensures chunk == [] <==> old(pos) == |data|
    {
      if pos == |data| {
        return [];
      }
      var available := if |data| - pos < max then |data| - pos else max;
      var n: nat :| 1 <= n <= available;
      chunk := data[pos..pos + n];
      pos := pos + n;
    }

    /** io.ReadFull, whatever the chunking; on a short stream the bytes that were there are consumed. */
    method ReadFull(n: nat) returns (b: bytes, ok: bool)
      requires Valid()
      modifies this
      ensures Valid() && old(pos) <= pos && b == data[old(pos)..pos]
      ensures ok <==> n <= |old(Rest())|
      ensures if ok then |b| == n else pos == |data|
    {
      b := [];
      while |b| < n
        invariant Valid() && old(pos) <= pos && b == data[old(pos)..pos] && |b| <= n
        decreases |data| - pos
      {
        var chunk := Read(n - |b|);
        if chunk == [] {
          return b, false;
        }
        b := b + chunk;
      }
      ok := true;
    }
  }

  /** io.TeeReader: keeps every byte read through it. */
  class Tee {
    const src: ByteStream
    ghost const start: nat
    var buffer: bytes

    constructor (src: ByteStream)
      requires src.Valid()
      ensures this.src == src && start == src.pos && buffer == [] && Valid()
    {
      this.src := src;
      start := src.pos;
      buffer := [];
    }

    ghost predicate Valid()
      reads this, src
    {
      src.Valid() && start <= src.pos && buffer == src.data[start..src.pos]
    }

    method ReadFull(n: nat) returns (b: bytes, ok: bool)
      requires Valid()
      modifies this, src
      ensures Valid() && old(src.pos) <= src.pos && b == src.data[old(src.pos)..src.pos]
      ensures ok <==> n <= |old(src.Rest())|
      ensures if ok then |b| == n else src.pos == |src.data|
    {
      b, ok := src.ReadFull(n);
      buffer := buffer + b;
    }

    method ReadByte() returns (b: Option<byte>)
      requires Valid()
      modifies this, src
      ensures Valid()
      ensures if old(src.pos) < |src.data| then b == Some(src.data[old(src.pos)]) && src.pos == old(src.pos) + 1
              else b == None && src.pos == old(src.pos)
    {
      var s, ok := ReadFull(1);
      b := if ok then Some(s[0]) else None;
    }

    /** io.CopyN(io.Discard, r, n): a negative n copies nothing and is not an error. */
    method Discard(n: int) returns (ok: bool)
      requires Valid()
      modifies this, src
      ensures Valid() && old(src.pos) <= src.pos
      ensures ok <==> n <= |old(src.Rest())|
      ensures ok ==> src.pos == old(src.pos) + if n < 0 then 0 else n
    {
      if n <= 0 {
        return true;
      }
      var _, full := ReadFull(n);
      ok := full;
    }

    lemma Distribute(x: nat, scale: nat, d: nat, u: nat)
      ensures x + scale * (d + 128 * u) == x + scale * d + scale * 128 * u
    {
    }

    /** binary.ReadUvarint: shift-and-or over at most ten bytes; the same value and length as decoding a buffer. */
    method ReadUvarint() returns (r: Option<uint64>)
      requires Valid()
      modifies this, src
      ensures Valid() && old(src.pos) <= src.pos
      ensures var g := GetUvarint(old(src.Rest()));
              if g.UValue? then r == Some(g.u) && src.pos == old(src.pos) + g.n else r == None
    {
      var x: nat, scale: nat, i := 0, 1, 0;
      ghost var g := GetUvarint(src.Rest());
      while i < MAX_VARINT_LEN_64
        invariant Valid() && i <= MAX_VARINT_LEN_64 && src.pos == old(src.pos) + i
        invariant var h := GetUvarintFrom(src.Rest(), i);
                  && (g.UValue? <==> h.UValue?)
                  && (h.UValue? ==> g.n == i + h.n && g.u == x + scale * h.u)
      {
        ghost var before := src.Rest();
        var b := ReadByte();
        if b == None {
          return None;
        }
        assert before[1..] == src.Rest();
        if b.value < 128 {
          if i == MAX_VARINT_LEN_64 - 1 && b.value > 1 {
            return None;
          }
          return Some(x + scale * b.value);
        }
        ghost var h := GetUvarintFrom(src.Rest(), i + 1);
        if h.UValue? {
          Distribute(x, scale, b.value - 128, h.u);
        }
        x := x + scale * (b.value - 128);
        scale := scale * 128;
        i := i + 1;
      }
      r := None;
    }
  }

  /** The writing side. */
  class Sink {
    var out: bytes

    constructor ()
      ensures out == []
    {
      out := [];
    }

    method Write(b: bytes)
      modifies this
      ensures out == old(out) + b
    {
      out := out + b;
    }
  }
}
