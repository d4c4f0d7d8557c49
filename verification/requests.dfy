/** The counting writer that every template and every request is written with. */
module Requests {
  import opened Bytes

  datatype Span = Span(start: nat, len: nat)

  function SaturatingAdd(a: nat, b: nat): nat { Min(a + b, USIZE_MAX) }

  // Writes into a buffer, and keeps counting once the buffer is full, so that one pass
  // gives either the bytes or the exact room they need.
  class Writer {
    const buffer: array<byte>
    var position: nat
    // Everything written so far, whether or not it fits.
    ghost var text: bytes

    ghost predicate Valid()
      reads this, buffer
    {
      && buffer.Length <= ISIZE_MAX
      && position == Min(|text|, USIZE_MAX)
      && (position <= buffer.Length ==> buffer[..position] == text)
    }

    constructor (buffer: array<byte>)
      requires buffer.Length <= ISIZE_MAX
      ensures Valid() && this.buffer == buffer && text == []
    {
      this.buffer, position, text := buffer, 0, [];
    }

    method Push(value: bytes)
      requires Valid()
      modifies this, buffer
      ensures Valid() && text == old(text) + value
    {
      var end := SaturatingAdd(position, |value|);
      if end <= buffer.Length {
        CopyShort(buffer, position, value);
        assert buffer[..end] == buffer[..position] + buffer[position..end];
      }
      position := end;
      text := text + value;
    }

    // Appends a copy of earlier output, where `span` says.
    method Repeat(span: Span)
      requires Valid() && span.start + span.len <= position
      modifies this, buffer
      ensures Valid() && text == old(text) + old(text)[span.start..span.start + span.len]
    {
      var end := SaturatingAdd(position, span.len);
      if end <= buffer.Length {
        forall i | 0 <= i < span.len {
          buffer[position + i] := buffer[span.start + i];
        }
        assert buffer[..end] == text + text[span.start..span.start + span.len];
      }
      position := end;
      text := text + text[span.start..span.start + span.len];
    }

    predicate Fits()
      reads this
    {
      position <= buffer.Length
    }
  }

  // What `to` holds once `from` is copied to `to[at..]`.
  ghost predicate Copied(to: bytes, before: bytes, at: nat, from: bytes) {
    && |to| == |before| && at + |from| <= |to|
    && forall i :: 0 <= i < |to| ==> to[i] == if at <= i < at + |from| then from[i - at] else before[i]
  }

  // Leaves `from` at `to[at..]` and nothing else changed. Short slices take overlapping stores.
  method CopyShort(to: array<byte>, at: nat, from: bytes)
    requires at + |from| <= to.Length
    modifies to
    ensures Copied(to[..], old(to[..]), at, from)
  {
    var len := |from|;
    if len == 0 {
    } else if len <= 3 {
      to[at] := from[0];
      to[at + len / 2] := from[len / 2];
      to[at + len - 1] := from[len - 1];
    } else if len <= 7 {
      CopyEnds(to, at, from, 4);
    } else if len <= 16 {
      CopyEnds(to, at, from, 8);
    } else if len <= 32 {
      CopyEnds(to, at, from, 16);
    } else {
      CopyFrom(to, at, from);
    }
  }

  // Copies the first `width` bytes of `from` and the last, which may overlap.
  method CopyEnds(to: array<byte>, at: nat, from: bytes, width: nat)
    requires at + |from| <= to.Length && width <= |from| <= 2 * width
    modifies to
    ensures Copied(to[..], old(to[..]), at, from)
  {
    CopyFrom(to, at, from[..width]);
    CopyFrom(to, at + |from| - width, from[|from| - width..]);
  }

  method CopyFrom(to: array<byte>, at: nat, from: bytes)
    requires at + |from| <= to.Length
    modifies to
    ensures Copied(to[..], old(to[..]), at, from)
  {
    forall i | 0 <= i < |from| {
      to[at + i] := from[i];
    }
  }
}
