/**
 * The print macros `println!` and `error!`: format the message into a
 * 512-byte stack buffer, draw it at the global cursor, then move the cursor
 * to the start of the next glyph row.
 */
module Makros {
  import opened Primitives
  import opened Wrappers
  import Utf8
  import opened PsfFont
  import opened Utils

  /** Size of the stack buffer each macro formats into. */
  const BUFFER_CAPACITY: nat := 512

  const WHITE: u32 := 0xFFFFFF
  const BLACK: u32 := 0x000000
  /** The foreground colour of the `error!` macro in this file. */
  const ERROR_RED: u32 := 0xEE4B2B

  /** The boot protocol's framebuffer response: the framebuffers it found. */
  datatype FramebufferResponse = FramebufferResponse(framebuffers: seq<Framebuffer>)

  /** `get_response()` followed by `framebuffers().next()`. */
  function FirstFramebuffer(response: Option<FramebufferResponse>): Option<Framebuffer> {
    if response.Some? && |response.value.framebuffers| > 0 then Some(response.value.framebuffers[0])
    else None
  }

  /** The memory a print call may draw into. */
  function Target(response: Option<FramebufferResponse>): set<array<u32>> {
    var fb := FirstFramebuffer(response);
    if fb.Some? then {fb.value.mem} else {}
  }

  /** Why a print call aborted: `panic!("Bad font!")`, or `unwrap` on a formatting error. */
  datatype PanicReason = BadFont | FormatError

  datatype PrintOutcome = Printed | NoFramebuffer | Panicked(reason: PanicReason)

  /** Each piece of the formatted message is a `&str`, hence valid UTF-8. */
  predicate ValidPieces(pieces: seq<seq<byte>>) {
    forall j :: 0 <= j < |pieces| ==> Utf8.Valid(pieces[j])
  }

  /**
   * Formats the message into a fresh 512-byte buffer through a
   * `BufferWriter` and reads it back with `as_str`; `formatted` is false
   * when `core::fmt::write` fails, where the macros `unwrap`.
   */
  method FormatMessage(pieces: seq<seq<byte>>) returns (formatted: bool, text: seq<byte>)
    requires ValidPieces(pieces)
    ensures formatted <==> |Concat(pieces)| <= BUFFER_CAPACITY
    ensures formatted ==> text == Concat(pieces)
  {
    var buffer := new byte[BUFFER_CAPACITY];
    var writer := new BufferWriter(buffer);
    formatted := FmtWrite(writer, pieces);
    text := writer.AsStr();
    if formatted {
      assert writer.Contents() == Concat(pieces);
      ConcatValid(pieces);
    }
  }

  /** The global text cursor `(CURSOR_X, CURSOR_Y)` and the macros that use it. */
  class Console {
    var cursorX: nat
    var cursorY: nat

    /** The statics start at `(0, 0)`. */
    constructor ()
      ensures cursorX == 0 && cursorY == 0
    {
      cursorX, cursorY := 0, 0;
    }

    /**
     * The body both macros share, with their foreground colour `fg`:
     * - no framebuffer response or no framebuffer: nothing happens;
     * - the font does not load: panic, nothing drawn, cursor kept;
     * - the message does not fit the buffer: `unwrap` panics before drawing;
     * - otherwise the message is drawn at the old cursor, which then moves to
     *   column 0, one glyph height down, however many newlines it held.
     */
    method Print(response: Option<FramebufferResponse>, fontData: seq<byte>, pieces: seq<seq<byte>>, fg: u32)
      returns (outcome: PrintOutcome)
      requires FirstFramebuffer(response).Some? ==>
        Fits(FirstFramebuffer(response).value.geometry, FirstFramebuffer(response).value.mem.Length)
      requires ValidPieces(pieces)
      modifies this, Target(response)
      ensures FirstFramebuffer(response).None? ==> outcome == NoFramebuffer
      ensures FirstFramebuffer(response).Some? && LoadPsf1Font(fontData).None? ==> outcome == Panicked(BadFont)
      ensures FirstFramebuffer(response).Some? && LoadPsf1Font(fontData).Some? ==>
        outcome == if |Concat(pieces)| <= BUFFER_CAPACITY then Printed else Panicked(FormatError)
      ensures outcome != Printed ==> cursorX == old(cursorX) && cursorY == old(cursorY)
      ensures outcome != Printed && FirstFramebuffer(response).Some? ==>
        FirstFramebuffer(response).value.mem[..] == old(FirstFramebuffer(response).value.mem[..])
      ensures outcome == Printed ==>
        var fb, font := FirstFramebuffer(response).value, LoadPsf1Font(fontData).value;
        fb.mem[..] == DrawnText(fb.geometry, font, Layout(Concat(pieces), old(cursorX), old(cursorY), font.charsize),
                                fg, BLACK, old(fb.mem[..])) &&
        cursorX == 0 && cursorY == old(cursorY) + font.charsize
    {
      var fbOpt := FirstFramebuffer(response);
      if fbOpt.None? {
        return NoFramebuffer;
      }
      var framebuffer := fbOpt.value;
      var fontOpt := LoadPsf1Font(fontData);
      if fontOpt.None? {
        return Panicked(BadFont);
      }
      var font := fontOpt.value;
      var formatted, text := FormatMessage(pieces);
      if !formatted {
        return Panicked(FormatError);
      }
      var x, y := cursorX, cursorY;
      DrawText(framebuffer, font, text, x, y, fg, BLACK);
      cursorX := 0;
      cursorY := cursorY + font.charsize;
      return Printed;
    }

    /** `println!`: white on black. */
    method Println(response: Option<FramebufferResponse>, fontData: seq<byte>, pieces: seq<seq<byte>>)
      returns (outcome: PrintOutcome)
      requires FirstFramebuffer(response).Some? ==>
        Fits(FirstFramebuffer(response).value.geometry, FirstFramebuffer(response).value.mem.Length)
      requires ValidPieces(pieces)
      modifies this, Target(response)
      ensures FirstFramebuffer(response).None? ==> outcome == NoFramebuffer
      ensures FirstFramebuffer(response).Some? && LoadPsf1Font(fontData).None? ==> outcome == Panicked(BadFont)
      ensures FirstFramebuffer(response).Some? && LoadPsf1Font(fontData).Some? ==>
        outcome == if |Concat(pieces)| <= BUFFER_CAPACITY then Printed else Panicked(FormatError)
      ensures outcome != Printed ==> cursorX == old(cursorX) && cursorY == old(cursorY)
      ensures outcome != Printed && FirstFramebuffer(response).Some? ==>
        FirstFramebuffer(response).value.mem[..] == old(FirstFramebuffer(response).value.mem[..])
      ensures outcome == Printed ==>
        var fb, font := FirstFramebuffer(response).value, LoadPsf1Font(fontData).value;
        fb.mem[..] == DrawnText(fb.geometry, font, Layout(Concat(pieces), old(cursorX), old(cursorY), font.charsize),
                                WHITE, BLACK, old(fb.mem[..])) &&
        cursorX == 0 && cursorY == old(cursorY) + font.charsize
    {
      outcome := Print(response, fontData, pieces, WHITE);
    }

    /** `error!` (the one in this file): red-orange on black. */
    method Error(response: Option<FramebufferResponse>, fontData: seq<byte>, pieces: seq<seq<byte>>)
      returns (outcome: PrintOutcome)
      requires FirstFramebuffer(response).Some? ==>
        Fits(FirstFramebuffer(response).value.geometry, FirstFramebuffer(response).value.mem.Length)
      requires ValidPieces(pieces)
      modifies this, Target(response)
      ensures FirstFramebuffer(response).None? ==> outcome == NoFramebuffer
      ensures FirstFramebuffer(response).Some? && LoadPsf1Font(fontData).None? ==> outcome == Panicked(BadFont)
      ensures FirstFramebuffer(response).Some? && LoadPsf1Font(fontData).Some? ==>
        outcome == if |Concat(pieces)| <= BUFFER_CAPACITY then Printed else Panicked(FormatError)
      ensures outcome != Printed ==> cursorX == old(cursorX) && cursorY == old(cursorY)
      ensures outcome != Printed && FirstFramebuffer(response).Some? ==>
        FirstFramebuffer(response).value.mem[..] == old(FirstFramebuffer(response).value.mem[..])
      ensures outcome == Printed ==>
        var fb, font := FirstFramebuffer(response).value, LoadPsf1Font(fontData).value;
        fb.mem[..] == DrawnText(fb.geometry, font, Layout(Concat(pieces), old(cursorX), old(cursorY), font.charsize),
                                ERROR_RED, BLACK, old(fb.mem[..])) &&
        cursorX == 0 && cursorY == old(cursorY) + font.charsize
    {
      outcome := Print(response, fontData, pieces, ERROR_RED);
    }
  }
}
