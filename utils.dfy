/**
 * The bounded format buffer: a `core::fmt::Write` sink over a borrowed,
 * fixed-size byte buffer, whose writes are all-or-nothing.
 */
module Utils {
  import opened Primitives
  import Utf8

  /** What `as_str` yields when the written bytes are not valid UTF-8. */
  function Utf8ErrorSentinel(): (r: seq<byte>)
    ensures Utf8.Valid(r) && |r| == 12
  {
    var s := AsciiBytes("<utf8-error>");
    Utf8.AsciiValid(s);
    s
  }

  /** The bytes of the pieces, in order. */
  function Concat(pieces: seq<seq<byte>>): seq<byte>
    decreases |pieces|
  {
    if pieces == [] then [] else Concat(pieces[..|pieces| - 1]) + pieces[|pieces| - 1]
  }

  /** Gluing valid strings together gives a valid string. */
  lemma {:induction false} ConcatValid(pieces: seq<seq<byte>>)
    requires forall j :: 0 <= j < |pieces| ==> Utf8.Valid(pieces[j])
    ensures Utf8.Valid(Concat(pieces))
    decreases |pieces|
  {
    if pieces != [] {
      ConcatValid(pieces[..|pieces| - 1]);
      Utf8.ConcatValid(Concat(pieces[..|pieces| - 1]), pieces[|pieces| - 1]);
    } else {
      assert Concat(pieces) == [];
    }
  }

  /** The pieces up to `j` spell out a prefix of all the pieces. */
  lemma {:induction false} ConcatPrefix(pieces: seq<seq<byte>>, j: nat)
    requires j <= |pieces|
    ensures Concat(pieces[..j]) <= Concat(pieces)
    decreases |pieces|
  {
    if j < |pieces| {
      var pre := pieces[..|pieces| - 1];
      assert pieces[..j] == pre[..j];
      ConcatPrefix(pre, j);
    } else {
      assert pieces[..j] == pieces;
    }
  }

  /** `BufferWriter`: a borrowed buffer and the number of bytes written to it so far. */
  class BufferWriter {
    const buf: array<byte>
    var pos: nat

    /** `pos <= buf.len()`. */
    ghost predicate Valid()
      reads this
    {
      pos <= buf.Length
    }

    /** The bytes written so far. */
    ghost function Contents(): seq<byte>
      reads this, buf
      requires Valid()
    {
      buf[..pos]
    }

    /** `BufferWriter::new`: nothing written yet; the buffer itself is left as it is. */
    constructor (buf: array<byte>)
      ensures this.buf == buf && pos == 0
      ensures Valid() && Contents() == []
    {
      this.buf := buf;
      pos := 0;
    }

    /** `as_str`: the written bytes as text, or the sentinel when they are not valid UTF-8. */
    function AsStr(): (r: seq<byte>)
      reads this, buf
      requires Valid()
      ensures Utf8.Valid(r)
      ensures r == buf[..pos] || r == Utf8ErrorSentinel()
      ensures Utf8.Valid(buf[..pos]) ==> r == buf[..pos]
    {
      if Utf8.Valid(buf[..pos]) then buf[..pos] else Utf8ErrorSentinel()
    }

    /**
     * `write_str`: copies all of `s` after what is already written, or fails
     * with nothing changed when it does not fit.
     */
    method WriteStr(s: seq<byte>) returns (ok: bool)
      requires Valid()
      modifies this, buf
      ensures Valid()
      ensures ok <==> old(pos) + |s| <= buf.Length
      ensures ok ==> pos == old(pos) + |s|
      ensures ok ==> buf[..] == old(buf[..])[..old(pos)] + s + old(buf[..])[old(pos) + |s|..]
      ensures !ok ==> pos == old(pos) && buf[..] == old(buf[..])
      ensures Contents() == if ok then old(Contents()) + s else old(Contents())
    {
      if pos + |s| > buf.Length {
        return false;
      }
      forall i | pos <= i < pos + |s| {
        buf[i] := s[i - pos];
      }
      pos := pos + |s|;
      ok := true;
    }
  }

  /**
   * `core::fmt::write` over a `BufferWriter`: the formatted message arrives
   * as a sequence of `write_str` calls and formatting stops at the first one
   * that fails.
   */
  method FmtWrite(w: BufferWriter, pieces: seq<seq<byte>>) returns (ok: bool)
    requires w.Valid()
    modifies w, w.buf
    ensures w.Valid()
    ensures ok <==> old(w.pos) + |Concat(pieces)| <= w.buf.Length
    ensures ok ==> w.Contents() == old(w.Contents()) + Concat(pieces)
    ensures !ok ==> old(w.Contents()) <= w.Contents() <= old(w.Contents()) + Concat(pieces)
  {
    ghost var start := w.Contents();
    for j := 0 to |pieces|
      invariant w.Valid()
      invariant w.Contents() == start + Concat(pieces[..j])
    {
      var written := w.WriteStr(pieces[j]);
      assert pieces[..j + 1][..j] == pieces[..j];
      if !written {
        ConcatPrefix(pieces, j + 1);
        ConcatPrefix(pieces, j);
        return false;
      }
    }
    assert pieces[..|pieces|] == pieces;
    return true;
  }
}
