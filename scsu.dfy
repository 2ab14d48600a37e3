/** The SCSU coder object: its window state, the encoder's helpers that write
    single-byte runs, Unicode runs, quotes and window definitions, the
    decoder's window commands, and the two public operations. Each method is
    proved against the functions of ScsuWindows, ScsuDecoding and
    ScsuEncoding. */
module ScsuCoder {
  import opened ScsuTables
  import opened ScsuWindows
  import opened ScsuDecoding
  import opened ScsuEncoding

  /** Sequence concatenation is associative; used to regroup appended output. */
  lemma SeqAssoc<T>(a: seq<T>, b: seq<T>, c: seq<T>)
    ensures (a + b) + c == a + (b + c)
  {
  }

  /** How one pass of the decoder's loop body ends. */
  datatype Control = GoOn | Leave | Thrown(error: Error)

  class Scsu {
    var dynamicOffset: array<int>
    var iSelectedWindow: int
    var iNextWindow: int
    var fUnicodeMode: bool
    /** Index in `aOut` of a pending SCU tag, or -1. */
    var iSCU: int
    var iIn: int
    var sIn: seq<Unit>
    var aOut: seq<Byte>

    ghost predicate Valid()
      reads this
    {
      dynamicOffset.Length == 8 && 0 <= iSelectedWindow < 8 && 0 <= iNextWindow &&
      0 <= iIn <= |sIn| && -1 <= iSCU
    }

    /** The window state as the decoder sees it, in the given mode. */
    ghost function State(uni: bool): (st: DState)
      reads this, dynamicOffset
      requires Valid()
      ensures st.Valid()
    {
      DState(dynamicOffset[..], iSelectedWindow, uni)
    }

    /** Where the encoder's loop stands between passes. It is never in
        Unicode mode there: a pass that enters Unicode mode leaves it or ends
        the loop. A pending SCU tag (`iSCU`) is the last byte written, before
        a unit that is not compressible; a pending UCn tag (`selecting`) is
        the last byte written, before a character the selected window's run
        writes, and `uniState` is the decoder's state before it. For input
        without surrogates, what was written decodes to the input read. */
    ghost predicate EncoderAt(selecting: bool, uniState: DState)
      reads this, dynamicOffset
      requires Valid()
    {
      && !fUnicodeMode
      && (iSCU != -1 ==>
            && !selecting && iSCU == |aOut| - 1 && aOut[iSCU] == SCU
            && iIn < |sIn| && !IsCompressible(sIn[iIn]))
      && (selecting ==>
            && iIn < |sIn| && |aOut| > 0 && aOut[|aOut| - 1] == UC0 + iSelectedWindow
            && SingleByteStep(sIn, iIn, dynamicOffset[iSelectedWindow]).Emit?
            && uniState.Valid() && uniState.uni && uniState.(sel := iSelectedWindow, uni := false) == State(false))
      && (NoSurrogates(sIn) ==>
            if selecting then Produces(aOut[..|aOut| - 1], sIn[..iIn], uniState)
            else if iSCU != -1 then Produces(aOut[..iSCU], sIn[..iIn], State(false))
            else Produces(aOut, sIn[..iIn], State(false)))
    }

    /** The next pass of the encoder's loop reads at least one unit. */
    ghost predicate Primed()
      reads this, dynamicOffset
      requires Valid()
    {
      iSCU != -1 || (iIn < |sIn| && SingleByteStep(sIn, iIn, dynamicOffset[iSelectedWindow]).Emit?)
    }

    /** Where the encoder's loop stands after a run that did not reach the
        end: at the character `ch` that ended it. */
    ghost predicate AfterRun(ch: int)
      reads this, dynamicOffset
      requires Valid()
    {
      && iSCU == -1 && iIn < |sIn|
      && (if fUnicodeMode then UnicodeRunEndsAt(sIn, iIn) && ch == sIn[iIn]
          else SingleByteStep(sIn, iIn, dynamicOffset[iSelectedWindow]) == Stop(ch))
      && (NoSurrogates(sIn) ==> Produces(aOut, sIn[..iIn], State(fUnicodeMode)))
    }

    constructor ()
      ensures Valid() && fresh(dynamicOffset)
      ensures dynamicOffset[..] == InitialDynamicOffset && iSelectedWindow == 0 && iNextWindow == 3
      ensures !fUnicodeMode && iSCU == -1 && iIn == 0
    {
      dynamicOffset := new int[8];
      sIn := [];
      aOut := [];
      new;
      Reset();
    }

    /** Back to the initial window state; the input and output are kept. */
    method Reset()
      modifies this
      ensures Valid() && fresh(dynamicOffset)
      ensures dynamicOffset[..] == InitialDynamicOffset && iSelectedWindow == 0 && iNextWindow == 3
      ensures !fUnicodeMode && iSCU == -1 && iIn == 0
      ensures sIn == old(sIn) && aOut == old(aOut)
    {
      iIn := 0;
      iSelectedWindow := 0;
      dynamicOffset := new int[8](i requires 0 <= i < 8 => InitialDynamicOffset[i]);
      iSCU := -1;
      fUnicodeMode := false;
      iNextWindow := 3;
    }

    /** Finds a window of `offsetTable` holding `ch`: the selected one if it
        does, otherwise the first that does, which becomes selected. */
    method LocateWindow(ch: int, offsetTable: seq<int>) returns (found: bool)
      requires |offsetTable| == 8 && 0 <= iSelectedWindow < 8
      modifies this`iSelectedWindow
      ensures 0 <= iSelectedWindow < 8
      ensures found <==> exists j :: 0 <= j < 8 && InWindow(ch, offsetTable[j])
      ensures found ==> InWindow(ch, offsetTable[iSelectedWindow])
      ensures iSelectedWindow == LocatedWindow(ch, offsetTable, old(iSelectedWindow))
      ensures InWindow(ch, offsetTable[old(iSelectedWindow)]) || !found ==> iSelectedWindow == old(iSelectedWindow)
      ensures !InWindow(ch, offsetTable[old(iSelectedWindow)]) ==>
        forall j :: 0 <= j < iSelectedWindow ==> !InWindow(ch, offsetTable[j])
    {
      var iWin := iSelectedWindow;
      if InWindow(ch, offsetTable[iWin]) {
        return true;
      }
      iWin := 0;
      while iWin < |offsetTable|
        invariant 0 <= iWin <= 8
        invariant forall j :: 0 <= j < iWin ==> !InWindow(ch, offsetTable[j])
      {
        if InWindow(ch, offsetTable[iWin]) {
          iSelectedWindow := iWin;
          return true;
        }
        iWin := iWin + 1;
      }
      return false;
    }

    /** Writes the single-byte run from `iIn` through the selected window,
        one character at a time, each classified by SingleByteStep: written
        and passed, or the character that ends the run returned, or the
        surrogate failure thrown. */
    method OutputSingleByteRun() returns (r: Result<int>)
      requires Valid()
      modifies this`aOut, this`iIn
      ensures Valid()
      ensures var run := SingleByteRun(sIn, old(iIn), dynamicOffset[iSelectedWindow]);
        aOut == old(aOut) + run.bytes && iIn == run.next && r == run.outcome
    {
      var iWin := iSelectedWindow;
      ghost var s, i0 := sIn, iIn;
      ghost var offset := dynamicOffset[iWin];
      ghost var done: seq<Byte> := [];
      while iIn < |sIn|
        invariant sIn == s && i0 <= iIn <= |s| && aOut == old(aOut) + done
        invariant SingleByteRun(s, i0, offset) == SbRun(done + SingleByteRun(s, iIn, offset).bytes,
          SingleByteRun(s, iIn, offset).next, SingleByteRun(s, iIn, offset).outcome)
        decreases |s| - iIn
      {
        SingleByteRunAt(s, i0, iIn, offset, done);
        match SingleByteStep(sIn, iIn, dynamicOffset[iWin])
        case Throw(e) =>
          return Err(e);
        case Stop(ch) =>
          return Ok(ch);
        case Emit(bytes, aInLen) =>
          aOut := aOut + bytes;
          iIn := iIn + aInLen;
          SeqAssoc(old(aOut), done, bytes);
          done := done + bytes;
      }
      assert done + [] == done;
      return Ok(0);
    }

    /** Writes the quote of `ch` from the selected window: SQn, then the byte
        through the dynamic window if it holds `ch`, else through the static
        one; fails when neither does, after writing SQn. */
    method QuoteSingleByte(ch: int) returns (r: Outcome)
      requires Valid() && iIn < |sIn|
      modifies this`aOut, this`iIn
      ensures Valid()
      ensures var k := iSelectedWindow;
        if InWindow(ch, dynamicOffset[k]) || InWindow(ch, StaticOffset[k]) then
          r == Pass && aOut == old(aOut) + QuoteBytes(ch, k, dynamicOffset[..]) && iIn == old(iIn) + 1
        else
          r == Fail(Internal) && aOut == old(aOut) + [SQ0 + k] && iIn == old(iIn)
    {
      var iWin := iSelectedWindow;
      aOut := aOut + [SQ0 + iWin];
      if InWindow(ch, dynamicOffset[iWin]) {
        aOut := aOut + [ch - dynamicOffset[iWin] + 0x80];  // (ch - offset) | 0x80
      } else if InWindow(ch, StaticOffset[iWin]) {
        aOut := aOut + [ch - StaticOffset[iWin]];
      } else {
        return Fail(Internal);
      }
      iIn := iIn + 1;
      return Pass;
    }

    /** Writes a Unicode run from `iIn`: each unit as two bytes, high first,
        escaped with UQU when its high byte would read as a tag; the run stops
        before two compressible units in a row. Returns the unit it stopped
        at, or the last one written at the end of the input. */
    method OutputUnicodeRun() returns (ch: int)
      requires Valid()
      modifies this`aOut, this`iIn
      ensures Valid() && old(iIn) <= iIn
      ensures aOut == old(aOut) + UnicodeBytes(sIn, old(iIn), iIn)
      ensures forall j :: old(iIn) <= j < iIn ==> !UnicodeRunEndsAt(sIn, j)
      ensures iIn < |sIn| ==> UnicodeRunEndsAt(sIn, iIn) && ch == sIn[iIn]
      ensures iIn == |sIn| ==> ch == (if old(iIn) < iIn then sIn[iIn - 1] else 0)
    {
      ghost var s, i0, a := sIn, iIn, aOut;
      ch := 0;
      while iIn < |sIn|
        invariant sIn == s && i0 <= iIn <= |s|
        invariant aOut == a + UnicodeBytes(s, i0, iIn)
        invariant forall j :: i0 <= j < iIn ==> !UnicodeRunEndsAt(s, j)
        invariant ch == (if i0 < iIn then s[iIn - 1] else 0)
      {
        ch := sIn[iIn];
        var iOutLen := 2;
        if IsCompressible(ch) {
          if iIn < |sIn| - 1 {
            var ch2 := sIn[iIn + 1];
            if IsCompressible(ch2) {
              break;
            }
          }
          if 0xE000 <= ch <= 0xF2FF {
            iOutLen := 3;
          }
        }
        aOut := aOut + UnitBytes(ch);
        SeqAssoc(a, UnicodeBytes(s, i0, iIn), UnitBytes(ch));
        iIn := iIn + 1;
      }
    }

    /** Defines a new window for `ch` in the round-robin slot `iNextWindow % 8`
        and writes the define command; returns false, changing nothing, when
        `ch` lies in the gap no window may cover. */
    method PositionWindow(ch: int) returns (r: Result<bool>)
      requires Valid() && ch <= 0x10FFFF
      modifies this`aOut, this`iSelectedWindow, this`iNextWindow, dynamicOffset
      ensures Valid()
      ensures ch < 0x80 ==> r == Err(Internal)
      ensures 0x3400 <= ch < 0xE000 ==> r == Ok(false)
      ensures !(r == Ok(true)) ==>
        && aOut == old(aOut) && iSelectedWindow == old(iSelectedWindow)
        && iNextWindow == old(iNextWindow) && dynamicOffset[..] == old(dynamicOffset[..])
      ensures 0x80 <= ch && IsCompressible(ch) ==>
        var w := old(iNextWindow) % 8;
        var p := PlacementFor(ch, w);
        && r == Ok(true)
        && dynamicOffset[..] == old(dynamicOffset[..])[w := p.offset]
        && iSelectedWindow == w && iNextWindow == old(iNextWindow) + 1
        && aOut == old(aOut) + DefineCommand(p.code, w, fUnicodeMode)
    {
      var iWin := iNextWindow % 8;
      var iPosition := 0;
      if ch < 0x80 {
        return Err(Internal);
      }
      var i := 0;
      while i < |FixedOffset|
        invariant 0 <= i <= |FixedOffset| && iPosition == 0
        invariant forall j :: 0 <= j < i ==> !InWindow(ch, FixedOffset[j])
      {
        if InWindow(ch, FixedOffset[i]) {
          iPosition := i;
          break;
        }
        i := i + 1;
      }
      assert iPosition == FixedPosition(ch);
      ghost var p := PlacementFor(ch, iWin);
      var offset;
      if iPosition != 0 {
        offset := FixedOffset[iPosition];
        iPosition := iPosition + FixedThreshold;
      } else if ch < 0x3400 {
        iPosition := ch / 0x80;  // ch >> 7
        offset := ch - ch % 0x80;  // ch & 0xFF80
      } else if ch < 0xE000 {
        return Ok(false);
      } else if ch <= 0xFFFF {
        iPosition := (ch - GapOffset) / 0x80;
        offset := ch - ch % 0x80;  // ch & 0xFF80
      } else {
        iPosition := (ch - 0x10000) / 0x80;
        iPosition := iPosition + iWin * 0x2000;  // |= iWin << 13, on bits that are clear
        offset := ch - ch % 0x80;  // ch & 0x1FFF80
      }
      assert iPosition == p.code && offset == p.offset;
      dynamicOffset[iWin] := offset;
      ghost var command := DefineCommand(iPosition, iWin, fUnicodeMode);
      if iPosition < 0x100 {
        aOut := aOut + [(if fUnicodeMode then UD0 else SD0) + iWin];
        aOut := aOut + [iPosition];
      } else {
        aOut := aOut + [if fUnicodeMode then UDX else SDX];
        aOut := aOut + [iPosition / 0x100];  // (iPosition >> 8) & 0xFF
        aOut := aOut + [iPosition % 0x100];
      }
      assert aOut == old(aOut) + command;
      iSelectedWindow := iWin;
      iNextWindow := iNextWindow + 1;
      return Ok(true);
    }

    /** The decoder's one-byte define command for window `iWin`. */
    method DefineWindow(iWin: int, bOffset: Byte) returns (r: Outcome)
      requires Valid() && 0 <= iWin < 8
      modifies dynamicOffset, this`iSelectedWindow
      ensures Valid()
      ensures match Define(old(State(false)), iWin, bOffset)
        case Ok(st) => r == Pass && State(false) == st
        case Err(e) => r == Fail(e) && State(false) == old(State(false))
    {
      var iOffset := bOffset;
      if iOffset == 0 {
        return Fail(ZeroOffset);
      } else if iOffset < GapThreshold {
        dynamicOffset[iWin] := iOffset * 0x80;  // iOffset << 7
      } else if iOffset < ReservedStart {
        dynamicOffset[iWin] := iOffset * 0x80 + GapOffset;
      } else if iOffset < FixedThreshold {
        return Fail(BadOffset);
      } else {
        dynamicOffset[iWin] := FixedOffset[iOffset - FixedThreshold];
      }
      iSelectedWindow := iWin;
      return Pass;
    }

    /** The decoder's extended define command. */
    method DefineExtendedWindow(chOffset: Unit)
      requires Valid()
      modifies dynamicOffset, this`iSelectedWindow
      ensures Valid()
      ensures State(false) == DefineExtended(old(State(false)), chOffset)
    {
      var iWin := chOffset / 0x2000;  // chOffset >> 13
      dynamicOffset[iWin] := (chOffset % 0x2000) * 0x80 + 0x10000;  // ((chOffset & 0x1FFF) << 7) + (1 << 16)
      iSelectedWindow := iWin;
    }

    /** The code units of byte `ch` read through static window
        `iStaticWindow` (below 0x80) or dynamic window `iDynamicWindow`. */
    method ReadByte(ch: Byte, iStaticWindow: int, iDynamicWindow: int) returns (u: seq<Unit>)
      requires Valid() && 0 <= iStaticWindow < 8 && 0 <= iDynamicWindow < 8
      ensures u == Emission(ch, iStaticWindow, iDynamicWindow, dynamicOffset[..])
    {
      if ch < 128 {
        u := [FromCharCode(ch + StaticOffset[iStaticWindow])];
      } else {
        var c := ch - 0x80 + dynamicOffset[iDynamicWindow];
        if c < 0x10000 {
          u := [FromCharCode(c)];
        } else {
          c := c - 0x10000;
          u := [FromCharCode(0xD800 + c / 0x400)];  // ch >> 10
          u := u + [FromCharCode(0xDC00 + c % 0x400)];  // ch & ~0xFC00, as 16 bits
        }
      }
    }

    /** The Unicode-mode part of decoding, after SCU: code units two bytes
        at a time until UCn, UDn or UDX returns to single-byte mode, failing
        if a byte is left over. Returns the index of the last byte it read. */
    method DecodeUnicodeRun(str: seq<Byte>, iStart: int, sStart: seq<Unit>)
      returns (iCur: int, sOut: seq<Unit>, r: Outcome)
      requires Valid() && 0 <= iStart <= |str| && Resumes(str, iStart, sStart, State(true))
      modifies dynamicOffset, this`iSelectedWindow
      ensures Valid()
      ensures r.Fail? ==> Decoding(str) == Err(r.error)
      ensures r.Pass? ==> iStart <= iCur <= |str| && Resumes(str, iCur + 1, sOut, State(false))
    {
      iCur, sOut := iStart, sStart;
      while iCur < |str| - 1
        invariant Valid() && iStart <= iCur <= |str| + 1
        decreases |str| + 1 - iCur
        invariant iCur <= |str| ==> Resumes(str, iCur, sOut, State(true))
        invariant iCur > |str| ==> Decoding(str) == Err(EndedPrematurely)
      {
        var b := str[iCur];
        if UC0 <= b < UC0 + 8 {
          DecodeUnicodeSelect(str, iCur, sOut, State(true));
          iSelectedWindow := b - UC0;
          return iCur, sOut, Pass;
        } else if UD0 <= b < UD0 + 8 {
          DecodeUnicodeDefine(str, iCur, sOut, State(true));
          var q := DefineWindow(b - UD0, str[iCur + 1]);
          if q.Fail? {
            return iCur, sOut, q;
          }
          iCur := iCur + 1;
          return iCur, sOut, Pass;
        } else if b == UDX {
          DecodeUnicodeDefineExtended(str, iCur, sOut, State(true));
          if iCur + 2 < |str| {
            DefineExtendedWindow(CharFromTwoBytes(str[iCur + 1], str[iCur + 2]));
          } else {
            // the missing byte reads as NaN, which `>> 13` and `& 0x1FFF` turn into 0
            DefineExtendedWindow(0);
          }
          iCur := iCur + 2;
          return iCur, sOut, Pass;
        } else if b == UQU {
          DecodeUnicodeQuote(str, iCur, sOut, State(true));
          iCur := iCur + 1;
        } else {
          DecodeUnicodeUnit(str, iCur, sOut, State(true));
        }
        if iCur + 1 < |str| {
          sOut := sOut + [FromCharCode(CharFromTwoBytes(str[iCur], str[iCur + 1]))];
        } else {
          sOut := sOut + [0];  // the missing byte reads as NaN, which becomes U+0000
        }
        iCur := iCur + 2;
      }
      if iCur <= |str| {
        DecodeEnd(str, iCur, sOut, State(true));
      }
      if iCur != |str| {
        return iCur, sOut, Fail(EndedPrematurely);
      }
      return iCur, sOut, Pass;
    }

    /** One pass of the decoder's loop body: the tag at `iStart` with its
        arguments, or a literal byte. Returns the index of the last byte it
        read and whether the loop goes on, is left (`break Loop`), or
        throws. */
    method DecodeTag(str: seq<Byte>, iStart: int, sStart: seq<Unit>)
      returns (iCur: int, sOut: seq<Unit>, c: Control)
      requires Valid() && 0 <= iStart < |str| && Resumes(str, iStart, sStart, State(false))
      modifies dynamicOffset, this`iSelectedWindow
      ensures Valid()
      ensures c == GoOn ==> iStart <= iCur <= |str| && Resumes(str, iCur + 1, sOut, State(false))
      ensures c == Leave ==> Decoding(str) == if iCur < |str| then Err(EndedPrematurely) else Ok(sOut)
      ensures c.Thrown? ==> Decoding(str) == Err(c.error)
    {
      iCur, sOut := iStart, sStart;
      var ch := str[iCur];
      if SQ0 <= ch < SQ0 + 8 || ch == SDX || SD0 <= ch < SD0 + 8 || ch == SQU {
        iCur, sOut, c := DecodeArguments(str, iStart, sStart);
      } else if SC0 <= ch < SC0 + 8 {
        DecodeSelect(str, iCur, sOut, State(false));
        iSelectedWindow := ch - SC0;
        c := GoOn;
      } else if ch == SCU {
        DecodeUnicodeSwitch(str, iCur, sOut, State(false));
        var q;
        iCur, sOut, q := DecodeUnicodeRun(str, iCur + 1, sOut);
        c := if q.Fail? then Thrown(q.error) else GoOn;
      } else if ch == Srs {
        DecodeReserved(str, iCur, sOut, State(false));
        c := Thrown(ReservedByte);
      } else {
        DecodeLiteral(str, iCur, sOut, State(false));
        var u := ReadByte(ch, 0, iSelectedWindow);
        sOut := sOut + u;
        c := GoOn;
      }
    }

    /** The tags of single-byte mode that take arguments: SQn and its byte,
        SDn and its offset byte, SDX and SQU and their two bytes. Leaves the
        loop when the arguments run past the end of `str`. */
    method DecodeArguments(str: seq<Byte>, iStart: int, sStart: seq<Unit>)
      returns (iCur: int, sOut: seq<Unit>, c: Control)
      requires Valid() && 0 <= iStart < |str| && Resumes(str, iStart, sStart, State(false))
      requires var ch := str[iStart]; SQ0 <= ch < SQ0 + 8 || ch == SDX || SD0 <= ch < SD0 + 8 || ch == SQU
      modifies dynamicOffset, this`iSelectedWindow
      ensures Valid()
      ensures c == GoOn ==> iStart <= iCur <= |str| && Resumes(str, iCur + 1, sOut, State(false))
      ensures c == Leave ==> Decoding(str) == if iCur < |str| then Err(EndedPrematurely) else Ok(sOut)
      ensures c.Thrown? ==> Decoding(str) == Err(c.error)
    {
      iCur, sOut := iStart, sStart;
      var ch := str[iCur];
      if SQ0 <= ch < SQ0 + 8 {
        DecodeQuote(str, iCur, sOut, State(false));
        if iCur >= |str| - 1 {
          return iCur, sOut, Leave;
        }
        var iStaticWindow := ch - SQ0;
        var iDynamicWindow := iStaticWindow;
        iCur := iCur + 1;
        var u := ReadByte(str[iCur], iStaticWindow, iDynamicWindow);
        sOut := sOut + u;
      } else if ch == SDX {
        DecodeDefineExtended(str, iCur, sOut, State(false));
        iCur := iCur + 2;
        if iCur >= |str| {
          return iCur, sOut, Leave;
        }
        DefineExtendedWindow(CharFromTwoBytes(str[iCur - 1], str[iCur]));
      } else if SD0 <= ch < SD0 + 8 {
        DecodeDefine(str, iCur, sOut, State(false));
        iCur := iCur + 1;
        if iCur >= |str| {
          return iCur, sOut, Leave;
        }
        var q := DefineWindow(str[iCur - 1] - SD0, str[iCur]);
        if q.Fail? {
          return iCur, sOut, Thrown(q.error);
        }
      } else {
        DecodeQuoteUnicode(str, iCur, sOut, State(false));
        iCur := iCur + 2;
        if iCur >= |str| {
          return iCur, sOut, Leave;
        }
        sOut := sOut + [FromCharCode(CharFromTwoBytes(str[iCur - 1], str[iCur]))];
      }
      return iCur, sOut, GoOn;
    }

    /** Decodes the SCSU byte stream `str`, starting from the initial window
        state; the result is the decoder's function on the stream. */
    method Decode(str: seq<Byte>) returns (r: Result<seq<Unit>>)
      modifies this
      ensures r == Decoding(str)
    {
      Reset();
      var sOut: seq<Unit> := [];
      var iCur := 0;
      assert State(false) == Initial;
      ResumesStart(str);
      ghost var left := false;  // left the loop by `break Loop`
      while iCur < |str|
        invariant Valid() && fresh(dynamicOffset) && 0 <= iCur <= |str| + 1
        invariant Resumes(str, iCur, sOut, State(false))
        decreases |str| + 1 - iCur
      {
        var c;
        iCur, sOut, c := DecodeTag(str, iCur, sOut);
        if c == Leave {
          left := true;
          break;
        } else if c.Thrown? {
          return Err(c.error);
        }
        iCur := iCur + 1;
      }
      if !left {
        DecodeEnd(str, iCur, sOut, State(false));
      }
      if iCur < |str| {
        return Err(EndedPrematurely);
      }
      return Ok(sOut);
    }

    /** Encodes `str` with SCSU from the initial window state. Input without
        surrogates is always encoded, and the bytes decode back to it; the
        only failures are the single-byte run's surrogate errors. */
    method Encode(str: seq<Unit>) returns (r: Result<seq<Byte>>)
      modifies this
      ensures NoSurrogates(str) ==> r.Ok? && Decoding(r.value) == Ok(str)
      ensures r.Err? ==> r.error in {EndedPrematurely, UnpairedLowSurrogate, UnpairedHighSurrogate}
    {
      Reset();
      sIn := str;
      aOut := [];
      ghost var selecting := false;
      ghost var uniState := Initial;
      ProducesStart();
      assert str[..0] == [] && State(false) == Initial;
      while iIn < |sIn|
        invariant Valid() && fresh(dynamicOffset) && sIn == str
        invariant EncoderAt(selecting, uniState)
        decreases |sIn| - iIn, if Primed() then 0 else 1
      {
        var run, quoted := RunPass(selecting, uniState);
        if run.Err? {
          return Err(run.error);
        }
        if quoted {
          selecting := false;
          continue;
        }
        var ch := run.value;
        if iIn == |sIn| {
          if NoSurrogates(str) {
            ProducesAll(aOut, sIn, State(fUnicodeMode));
          }
          return Ok(aOut);
        }
        ch := LookAhead(ch);
        selecting, uniState := Dispatch(ch);
      }
      if NoSurrogates(str) {
        ProducesAll(aOut, sIn, State(false));
      }
      return Ok(aOut);
    }

    /** The run that opens a pass of the encoder's loop: the Unicode run when
        SCU is pending, which may turn SCU into SQU, or the single-byte run. */
    method RunPass(ghost selecting: bool, ghost uniState: DState) returns (r: Result<int>, quoted: bool)
      requires Valid() && EncoderAt(selecting, uniState)
      modifies this`aOut, this`iIn, this`iSCU, this`fUnicodeMode
      ensures Valid() && sIn == old(sIn) && old(iIn) <= iIn && (old(Primed()) || old(iSCU) != -1 ==> old(iIn) < iIn)
      ensures r.Err? ==> !NoSurrogates(sIn) && r.error in {EndedPrematurely, UnpairedLowSurrogate, UnpairedHighSurrogate}
      ensures quoted ==> r.Ok? && old(iIn) < iIn && EncoderAt(false, uniState)
      ensures r.Ok? && !quoted && iIn < |sIn| ==> AfterRun(r.value)
      ensures r.Ok? && !quoted && NoSurrogates(sIn) ==> Produces(aOut, sIn[..iIn], State(fUnicodeMode))
      // with no SCU pending: exactly the single-byte run in the selected window
      ensures old(iSCU) == -1 ==>
        var run := SingleByteRun(sIn, old(iIn), dynamicOffset[iSelectedWindow]);
        && !quoted && aOut == old(aOut) + run.bytes && iIn == run.next && r == run.outcome
        && iSCU == -1 && fUnicodeMode == old(fUnicodeMode)
      // with SCU pending: the Unicode run up to its first stop, SCU turned into
      // SQU when the run is one unit in two bytes, and Unicode mode entered otherwise
      ensures old(iSCU) != -1 ==>
        && r.Ok? && iSCU == -1 && fUnicodeMode == !quoted
        && (quoted <==> |UnicodeBytes(sIn, old(iIn), iIn)| == 2)
        && aOut == (if quoted then old(aOut)[old(iSCU) := SQU] else old(aOut)) + UnicodeBytes(sIn, old(iIn), iIn)
        && (forall j :: old(iIn) <= j < iIn ==> !UnicodeRunEndsAt(sIn, j))
        && (iIn < |sIn| ==> UnicodeRunEndsAt(sIn, iIn))
    {
      if iSCU != -1 {
        var ch;
        ch, quoted := UnicodeRunAfterSCU(uniState);
        r := Ok(ch);
      } else {
        r := SingleByteRunPass(selecting, uniState);
        quoted := false;
      }
    }

    /** A pass of the encoder's loop with no SCU pending: the single-byte run,
        which also completes a pending UCn. */
    method SingleByteRunPass(ghost selecting: bool, ghost uniState: DState) returns (r: Result<int>)
      requires Valid() && EncoderAt(selecting, uniState) && iSCU == -1
      modifies this`aOut, this`iIn
      ensures Valid() && sIn == old(sIn) && old(iIn) <= iIn && (old(Primed()) ==> old(iIn) < iIn)
      ensures r.Err? ==> !NoSurrogates(sIn) && r.error in {EndedPrematurely, UnpairedLowSurrogate, UnpairedHighSurrogate}
      ensures r.Ok? && iIn < |sIn| ==> AfterRun(r.value)
      ensures r.Ok? && NoSurrogates(sIn) ==> Produces(aOut, sIn[..iIn], State(false))
      // exactly the run's bytes are written, and the pass stops where the run does
      ensures var run := SingleByteRun(sIn, old(iIn), dynamicOffset[iSelectedWindow]);
        aOut == old(aOut) + run.bytes && iIn == run.next && r == run.outcome
    {
      ghost var i, offset, out := iIn, dynamicOffset[iSelectedWindow], aOut;
      r := OutputSingleByteRun();
      SingleByteRunEnds(sIn, i, offset);
      if NoSurrogates(sIn) {
        if selecting {
          assert out == out[..|out| - 1] + [UC0 + iSelectedWindow];
          SelectThenRunExtends(out[..|out| - 1], iSelectedWindow, sIn, i, uniState);
        } else {
          SingleByteRunExtends(out, sIn, i, State(false));
        }
      }
    }

    /** A pass of the encoder's loop with SCU pending: the Unicode run, then
        SCU changed into SQU when the run wrote one unit in two bytes, or
        Unicode mode entered otherwise. */
    method UnicodeRunAfterSCU(ghost uniState: DState) returns (ch: int, quoted: bool)
      requires Valid() && EncoderAt(false, uniState) && iSCU != -1
      modifies this`aOut, this`iIn, this`iSCU, this`fUnicodeMode
      ensures Valid() && sIn == old(sIn) && old(iIn) < iIn && iSCU == -1
      // the run's bytes follow SCU, which becomes SQU exactly when the run is one unit in two bytes
      ensures quoted <==> |UnicodeBytes(sIn, old(iIn), iIn)| == 2
      ensures aOut == (if quoted then old(aOut)[old(iSCU) := SQU] else old(aOut)) + UnicodeBytes(sIn, old(iIn), iIn)
      ensures quoted ==> !fUnicodeMode && iIn == old(iIn) + 1
      ensures iIn < |sIn| ==> UnicodeRunEndsAt(sIn, iIn)
      ensures forall j :: old(iIn) <= j < iIn ==> !UnicodeRunEndsAt(sIn, j)
      ensures quoted ==> EncoderAt(false, uniState)
      ensures !quoted ==> fUnicodeMode && (iIn < |sIn| ==> AfterRun(ch))
      ensures !quoted && NoSurrogates(sIn) ==> Produces(aOut, sIn[..iIn], State(true))
    {
      ghost var pre, i := aOut[..iSCU], iIn;
      assert aOut == pre + [SCU];
      ch := OutputUnicodeRun();
      ghost var run := UnicodeBytes(sIn, i, iIn);
      if NoSurrogates(sIn) {
        UnicodeRunExtends(pre, sIn, i, iIn, State(false));
      }
      if |aOut| - iSCU == 3 {
        UnicodeBytesLength(sIn, i, iIn);
        if NoSurrogates(sIn) {
          QuotedRunExtends(pre, sIn, i, iIn, State(false));
        }
        assert (pre + [SCU] + run)[iSCU := SQU] == (pre + [SCU])[iSCU := SQU] + run;
        aOut := aOut[iSCU := SQU];
        iSCU := -1;
        return ch, true;
      }
      iSCU := -1;
      fUnicodeMode := true;
      return ch, false;
    }

    /** The part of a pass of the encoder's loop after the look-ahead chose
        `ch`: select a dynamic window holding the character (or quote it from
        there when the unit after it is in the current window), quote it from
        a static window, define a window for it, or start a Unicode run with
        SCU. */
    method Dispatch(ch: int) returns (ghost selecting: bool, ghost uniState: DState)
      requires Valid() && AtChar(ch, iSelectedWindow)
      modifies this`aOut, this`iIn, this`iSelectedWindow, this`iNextWindow, this`fUnicodeMode, this`iSCU, dynamicOffset
      ensures Valid() && sIn == old(sIn)
      ensures EncoderAt(selecting, uniState)
      ensures old(iIn) <= iIn && (iIn == old(iIn) ==> Primed())
      // below 0x80 or in a dynamic window: quote from that window when in single-byte
      // mode and the next unit is in the selected window, else select it; otherwise,
      // in single-byte mode, quote from a static window holding it; otherwise define
      // a window for it, or start a Unicode run when it is in the gap
      ensures
        var dyn, sel, uni := old(dynamicOffset[..]), old(iSelectedWindow), old(fUnicodeMode);
        if ch < 0x80 || exists j :: 0 <= j < 8 && InWindow(ch, dyn[j]) then
          var k := if ch < 0x80 then sel else LocatedWindow(ch, dyn, sel);
          if !uni && old(iIn) < |sIn| - 1 && InWindow(sIn[old(iIn) + 1], dyn[sel]) then
            && aOut == old(aOut) + QuoteBytes(ch, k, dyn)
            && iSelectedWindow == sel && iIn == old(iIn) + 1 && !fUnicodeMode
            && dynamicOffset[..] == dyn && iNextWindow == old(iNextWindow) && iSCU == -1
          else
            && aOut == old(aOut) + [(if uni then UC0 else SC0) + k]
            && iSelectedWindow == k && iIn == old(iIn) && !fUnicodeMode
            && dynamicOffset[..] == dyn && iNextWindow == old(iNextWindow) && iSCU == -1
        else
          StaticOrDefined(ch, dyn, sel, uni, old(iNextWindow), old(iIn), old(aOut),
                          dynamicOffset[..], iSelectedWindow, iNextWindow, fUnicodeMode, iIn, iSCU, aOut)
    {
      var iPrevWindow := iSelectedWindow;
      var located := false;
      if 0x80 <= ch {
        located := LocateWindow(ch, dynamicOffset[..]);
      }
      if ch < 0x80 || located {
        selecting, uniState := SelectOrQuote(ch, iPrevWindow);
        return;
      }
      selecting, uniState := QuoteStaticOrDefine(ch);
    }

    /** The effect of a pass on `ch`, from 0x80 and in no dynamic window, that
        started from windows `dyn`, selection `sel`, mode `uni`, counter
        `next`, input index `i` and output `out`: in single-byte mode, quote
        it from a static window holding it; otherwise define a window for it,
        or start a Unicode run when it is in the gap. */
    ghost predicate StaticOrDefined(ch: int, dyn: seq<int>, sel: int, uni: bool, next: int, i: int, out: seq<Byte>,
                                    dyn': seq<int>, sel': int, next': int, uni': bool, i': int, scu': int, out': seq<Byte>)
      requires 0x80 <= ch <= 0x10FFFF && |dyn| == 8 && 0 <= sel < 8 && 0 <= next
    {
      if !uni && exists j :: 0 <= j < 8 && InWindow(ch, StaticOffset[j]) then
        && out' == out + QuoteBytes(ch, LocatedWindow(ch, StaticOffset, sel), dyn)
        && sel' == sel && i' == i + 1
        && dyn' == dyn && next' == next && !uni' && scu' == -1
      else if IsCompressible(ch) then
        var w := next % 8;
        var p := PlacementFor(ch, w);
        && dyn' == dyn[w := p.offset]
        && sel' == w && next' == next + 1
        && out' == out + DefineCommand(p.code, w, uni) && !uni' && scu' == -1 && i' == i
      else
        && out' == out + [SCU] && scu' == |out|
        && dyn' == dyn && sel' == sel && next' == next && i' == i && uni' == uni
    }

    /** `ch` is from 0x80 and in no dynamic window: quote it from a static
        window in single-byte mode, or define a window for it, or start a
        Unicode run. */
    method QuoteStaticOrDefine(ch: int) returns (ghost selecting: bool, ghost uniState: DState)
      requires Valid() && AtChar(ch, iSelectedWindow) && 0x80 <= ch
      requires forall j :: 0 <= j < 8 ==> !InWindow(ch, dynamicOffset[j])
      modifies this`aOut, this`iIn, this`iSelectedWindow, this`iNextWindow, this`fUnicodeMode, this`iSCU, dynamicOffset
      ensures Valid() && sIn == old(sIn)
      ensures EncoderAt(selecting, uniState)
      ensures old(iIn) <= iIn && (iIn == old(iIn) ==> Primed())
      ensures StaticOrDefined(ch, old(dynamicOffset[..]), old(iSelectedWindow), old(fUnicodeMode), old(iNextWindow), old(iIn), old(aOut),
                              dynamicOffset[..], iSelectedWindow, iNextWindow, fUnicodeMode, iIn, iSCU, aOut)
    {
      var iPrevWindow := iSelectedWindow;
      var inStatic := false;
      if !fUnicodeMode {
        inStatic := LocateWindow(ch, StaticOffset);
      }
      if inStatic {
        QuoteAndRestore(ch, iPrevWindow);
        return false, Initial;
      }
      selecting, uniState := DefineOrStartUnicode(ch);
    }

    /** The encoder's look-ahead after a Unicode run that stopped at an ASCII
        unit: the first unit from 0x80 in the compressible units that follow,
        or the unit itself when there is none. */
    method LookAhead(ch0: int) returns (ch: int)
      requires Valid() && AfterRun(ch0)
      ensures AtChar(ch, iSelectedWindow)
      ensures !fUnicodeMode ==> ch == ch0
      // the first unit from 0x80 if only ASCII precedes it and it is compressible, else the next unit
      ensures fUnicodeMode ==>
        var k := NextWide(sIn, iIn);
        ch == if k < |sIn| && IsCompressible(sIn[k]) then sIn[k] else sIn[iIn]
    {
      ch := ch0;
      var ich := iIn;
      while ch < 0x80
        invariant iIn <= ich <= |sIn|
        invariant 0x80 <= ch0 ==> ich == iIn && ch == ch0
        invariant ich == iIn ==> ch == ch0
        invariant iIn < ich ==> ch == sIn[ich - 1] && IsCompressible(ch) && (ich - 1 == iIn || sIn[iIn] < 0x80)
        invariant ch < 0x80 ==> NextWide(sIn, iIn) == NextWide(sIn, ich)
        invariant iIn < ich ==> NextWide(sIn, iIn) == NextWide(sIn, ich - 1)
        decreases |sIn| - ich
      {
        if ich == |sIn| || !IsCompressible(sIn[ich]) {
          ch := sIn[iIn];
          break;
        }
        ch := sIn[ich];
        ich := ich + 1;
      }
    }

    /** The state at the character `ch` the encoder dispatches on, with
        `prevSel` the window selected when the run ended: in Unicode mode a
        compressible unit that is the next one or follows ASCII; in
        single-byte mode the character that ended the run. */
    ghost predicate AtChar(ch: int, prevSel: int)
      reads this, dynamicOffset
      requires Valid()
    {
      && iSCU == -1 && iIn < |sIn| && 0 <= prevSel < 8
      && (if fUnicodeMode then IsCompressible(ch) && 0 <= ch < 0x10000 && (ch == sIn[iIn] || sIn[iIn] < 0x80)
          else SingleByteStep(sIn, iIn, dynamicOffset[prevSel]) == Stop(ch))
      && (NoSurrogates(sIn) ==> Produces(aOut, sIn[..iIn], DState(dynamicOffset[..], prevSel, fUnicodeMode)))
    }

    /** `ch` is below 0x80 or in the selected dynamic window: quote it from
        there when in single-byte mode and the next unit is in the window
        that was selected; otherwise select the window with SCn, or UCn in
        Unicode mode, which the next pass's run completes. */
    method SelectOrQuote(ch: int, iPrevWindow: int) returns (ghost selecting: bool, ghost uniState: DState)
      requires Valid() && AtChar(ch, iPrevWindow)
      requires ch < 0x80 || InWindow(ch, dynamicOffset[iSelectedWindow])
      modifies this`aOut, this`iIn, this`iSelectedWindow, this`fUnicodeMode
      ensures Valid() && sIn == old(sIn)
      ensures EncoderAt(selecting, uniState)
      ensures old(iIn) <= iIn && (iIn == old(iIn) ==> Primed())
      // quote when in single-byte mode and the next unit is in the previous window
      ensures !old(fUnicodeMode) && old(iIn) < |sIn| - 1 && InWindow(sIn[old(iIn) + 1], dynamicOffset[iPrevWindow]) ==>
        && aOut == old(aOut) + QuoteBytes(ch, old(iSelectedWindow), dynamicOffset[..])
        && iSelectedWindow == iPrevWindow && iIn == old(iIn) + 1
      // otherwise select with SCn, or UCn in Unicode mode
      ensures !(!old(fUnicodeMode) && old(iIn) < |sIn| - 1 && InWindow(sIn[old(iIn) + 1], dynamicOffset[iPrevWindow])) ==>
        && aOut == old(aOut) + [(if old(fUnicodeMode) then UC0 else SC0) + old(iSelectedWindow)]
        && iSelectedWindow == old(iSelectedWindow) && iIn == old(iIn) && !fUnicodeMode
    {
      if !fUnicodeMode && iIn < |sIn| - 1 {
        var ch2 := sIn[iIn + 1];
        if InWindow(ch2, dynamicOffset[iPrevWindow]) {
          QuoteAndRestore(ch, iPrevWindow);
          return false, Initial;
        }
      }
      ghost var out, st := aOut, DState(dynamicOffset[..], iPrevWindow, fUnicodeMode);
      if fUnicodeMode {
        WindowCharEmits(sIn, iIn, dynamicOffset[iSelectedWindow]);
        aOut := aOut + [UC0 + iSelectedWindow];
        assert aOut[..|aOut| - 1] == out;
        selecting, uniState := true, st;
      } else {
        StopAfterSelect(sIn, iIn, dynamicOffset[iPrevWindow], dynamicOffset[iSelectedWindow]);
        if NoSurrogates(sIn) {
          SelectExtends(out, sIn[..iIn], iSelectedWindow, st);
        }
        aOut := aOut + [SC0 + iSelectedWindow];
        selecting, uniState := false, Initial;
      }
      fUnicodeMode := false;
    }

    /** Quotes `ch` from the selected window, dynamic or static, and selects
        `iPrevWindow` again. */
    method QuoteAndRestore(ch: int, iPrevWindow: int)
      requires Valid() && AtChar(ch, iPrevWindow) && !fUnicodeMode
      requires InWindow(ch, dynamicOffset[iSelectedWindow]) || InWindow(ch, StaticOffset[iSelectedWindow])
      modifies this`aOut, this`iIn, this`iSelectedWindow
      ensures Valid() && sIn == old(sIn)
      ensures EncoderAt(false, Initial) && iIn == old(iIn) + 1
      ensures aOut == old(aOut) + QuoteBytes(ch, old(iSelectedWindow), dynamicOffset[..])
      ensures iSelectedWindow == iPrevWindow
    {
      ghost var out, i, k := aOut, iIn, iSelectedWindow;
      var q := QuoteSingleByte(ch);
      assert q == Pass;
      iSelectedWindow := iPrevWindow;
      if NoSurrogates(sIn) {
        QuoteExtends(out, sIn, i, k, State(false));
      }
    }

    /** `ch` is in no window the encoder may select: define a window for it,
        or, for a character in the gap, write SCU to start a Unicode run. */
    method DefineOrStartUnicode(ch: int) returns (ghost selecting: bool, ghost uniState: DState)
      requires Valid() && AtChar(ch, iSelectedWindow) && 0x80 <= ch
      modifies this`aOut, this`iSelectedWindow, this`iNextWindow, this`fUnicodeMode, this`iSCU, dynamicOffset
      ensures Valid() && sIn == old(sIn)
      ensures EncoderAt(selecting, uniState) && Primed()
      // a character in the gap starts a Unicode run: SCU is written and pending, nothing else changes
      ensures !IsCompressible(ch) ==>
        && aOut == old(aOut) + [SCU] && iSCU == |old(aOut)|
        && dynamicOffset[..] == old(dynamicOffset[..]) && iSelectedWindow == old(iSelectedWindow)
        && iNextWindow == old(iNextWindow) && fUnicodeMode == old(fUnicodeMode)
      // any other gets window `iNextWindow % 8` moved to it, selected and defined in the output
      ensures IsCompressible(ch) ==>
        var w := old(iNextWindow) % 8;
        var p := PlacementFor(ch, w);
        && dynamicOffset[..] == old(dynamicOffset[..])[w := p.offset]
        && iSelectedWindow == w && iNextWindow == old(iNextWindow) + 1
        && aOut == old(aOut) + DefineCommand(p.code, w, old(fUnicodeMode)) && !fUnicodeMode && iSCU == -1
    {
      ghost var out, st, offset := aOut, State(fUnicodeMode), dynamicOffset[iSelectedWindow];
      selecting, uniState := false, Initial;
      var placed := PositionWindow(ch);
      assert placed.Ok?;
      if placed.value {
        if fUnicodeMode {
          WindowCharEmits(sIn, iIn, dynamicOffset[iSelectedWindow]);
        } else {
          StopAfterSelect(sIn, iIn, offset, dynamicOffset[iSelectedWindow]);
        }
        if NoSurrogates(sIn) {
          DefineExtends(out, sIn[..iIn], ch, iSelectedWindow, st);
        }
        fUnicodeMode := false;
      } else {
        iSCU := |aOut|;
        aOut := aOut + [SCU];
      }
    }
  }
}
