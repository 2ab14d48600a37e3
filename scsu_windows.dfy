/** Window offset arithmetic: how the decoder turns a define command into an
    offset, and how the encoder chooses the offset and position code of a new
    window for a code point. */
module ScsuWindows {
  import opened ScsuTables

  /** The offset a one-byte define command (SDn or UDn) gives its window. */
  function DefineOffset(b: Byte): (r: Result<int>)
    ensures r == Err(ZeroOffset) <==> b == 0
    ensures r == Err(BadOffset) <==> ReservedStart <= b < FixedThreshold
    ensures r.Err? ==> r == Err(ZeroOffset) || r == Err(BadOffset)
    // a window defined this way lies wholly inside the BMP and outside the gap
    ensures r.Ok? ==> 0x80 <= r.value <= 0xFF80 && IsCompressible(r.value) && IsCompressible(r.value + 0x7F)
  {
    if b == 0 then Err(ZeroOffset)
    else if b < GapThreshold then Ok(b * 0x80)
    else if b < ReservedStart then Ok(b * 0x80 + GapOffset)
    else if b < FixedThreshold then Err(BadOffset)
    else Ok(FixedOffset[b - FixedThreshold])
  }

  /** The window and offset an extended define command (SDX or UDX) carries
      in its 16-bit argument: the top three bits name the window. */
  function ExtendedWindow(v: Unit): (r: (int, int))
    ensures 0 <= r.0 < 8
    ensures 0x10000 <= r.1 <= 0x10FF80 && r.1 % 0x80 == 0
  {
    (v / 0x2000, (v % 0x2000) * 0x80 + 0x10000)
  }

  /** The first window of `table` at or after `i` that holds `ch`, or -1. */
  function FirstWindowFrom(ch: int, table: seq<int>, i: nat): (k: int)
    requires i <= |table|
    ensures k == -1 || (i <= k < |table| && InWindow(ch, table[k]))
    ensures forall j :: i <= j < |table| && (k == -1 || j < k) ==> !InWindow(ch, table[j])
    decreases |table| - i
  {
    if i == |table| then -1
    else if InWindow(ch, table[i]) then i
    else FirstWindowFrom(ch, table, i + 1)
  }

  /** The window the encoder's search of `table` leaves selected: `sel`
      when it holds `ch`, otherwise the first window that does, otherwise
      `sel` again. */
  function LocatedWindow(ch: int, table: seq<int>, sel: int): (k: int)
    requires 0 <= sel < |table|
    ensures 0 <= k < |table|
    ensures InWindow(ch, table[sel]) ==> k == sel
    ensures !InWindow(ch, table[sel]) && (exists j :: 0 <= j < |table| && InWindow(ch, table[j])) ==>
      InWindow(ch, table[k]) && forall j :: 0 <= j < k ==> !InWindow(ch, table[j])
    ensures (forall j :: 0 <= j < |table| ==> !InWindow(ch, table[j])) ==> k == sel
  {
    if InWindow(ch, table[sel]) then sel
    else
      var k := FirstWindowFrom(ch, table, 0);
      if k == -1 then sel else k
  }

  /** The first fixed offset at or after `i` whose window holds `ch`, or 0
      when there is none. */
  function FirstFixedFrom(ch: int, i: nat): (k: nat)
    requires i <= |FixedOffset|
    decreases |FixedOffset| - i
  {
    if i == |FixedOffset| then 0
    else if InWindow(ch, FixedOffset[i]) then i
    else FirstFixedFrom(ch, i + 1)
  }

  /** The encoder's search of the fixed offsets. Index 0 also stands for
      "no match", so the first fixed window can never be chosen. */
  function FixedPosition(ch: int): (k: nat)
    ensures k < |FixedOffset|
    ensures k != 0 ==> InWindow(ch, FixedOffset[k])
    ensures k != 0 ==> forall j :: 0 <= j < k ==> !InWindow(ch, FixedOffset[j])
    ensures k == 0 ==> InWindow(ch, FixedOffset[0]) || forall j :: 0 <= j < |FixedOffset| ==> !InWindow(ch, FixedOffset[j])
  {
    FirstFixedLemma(ch, 0);
    FirstFixedFrom(ch, 0)
  }

  lemma {:induction false} FirstFixedLemma(ch: int, i: nat)
    requires i <= |FixedOffset|
    ensures FirstFixedFrom(ch, i) < |FixedOffset|
    ensures FirstFixedFrom(ch, i) != 0 ==>
      i <= FirstFixedFrom(ch, i) && InWindow(ch, FixedOffset[FirstFixedFrom(ch, i)]) &&
      forall j :: i <= j < FirstFixedFrom(ch, i) ==> !InWindow(ch, FixedOffset[j])
    ensures FirstFixedFrom(ch, i) == 0 ==>
      (i == 0 && InWindow(ch, FixedOffset[0])) || forall j :: i <= j < |FixedOffset| ==> !InWindow(ch, FixedOffset[j])
    decreases |FixedOffset| - i
  {
    if i < |FixedOffset| && !InWindow(ch, FixedOffset[i]) {
      FirstFixedLemma(ch, i + 1);
    }
  }

  /** Where the encoder puts a new window for `ch`: its offset and the
      position code of the define command, or InGap when `ch` lies in the
      range no window may cover. */
  datatype Placement = Placed(offset: int, code: int) | InGap

  function PlacementFor(ch: int, w: int): (p: Placement)
    requires 0x80 <= ch <= 0x10FFFF && 0 <= w < 8
    ensures p.InGap? <==> 0x3400 <= ch < 0xE000
    ensures p.Placed? ==> InWindow(ch, p.offset) && 0 <= p.code < 0x10000
  {
    var i := FixedPosition(ch);
    if i != 0 then Placed(FixedOffset[i], i + FixedThreshold)
    else if ch < 0x3400 then Placed(ch - ch % 0x80, ch / 0x80)
    else if ch < 0xE000 then InGap
    else if ch <= 0xFFFF then Placed(ch - ch % 0x80, (ch - GapOffset) / 0x80)
    else Placed(ch - ch % 0x80, (ch - 0x10000) / 0x80 + w * 0x2000)
  }

  /** The bytes of the define command the encoder writes for a position code:
      SDn/UDn and one byte below 0x100, SDX/UDX and two bytes otherwise. */
  function DefineCommand(code: int, w: int, unicodeMode: bool): (bytes: seq<Byte>)
    requires 0 <= code < 0x10000 && 0 <= w < 8
    ensures code < 0x100 ==> |bytes| == 2 && bytes[1] == code
    ensures code >= 0x100 ==> |bytes| == 3 && CharFromTwoBytes(bytes[1], bytes[2]) == code
  {
    if code < 0x100 then [(if unicodeMode then UD0 else SD0) + w, code]
    else [if unicodeMode then UDX else SDX, code / 0x100, code % 0x100]
  }

  /** For a BMP code point outside the gap, the one-byte define command the
      encoder writes makes the decoder reproduce the offset it stored. */
  lemma PlacementDefinesBmp(ch: int, w: int)
    requires 0x80 <= ch <= 0xFFFF && IsCompressible(ch) && 0 <= w < 8
    ensures PlacementFor(ch, w).Placed?
    ensures 0 < PlacementFor(ch, w).code < 0x100
    ensures DefineOffset(PlacementFor(ch, w).code) == Ok(PlacementFor(ch, w).offset)
  {
    var i := FixedPosition(ch);
    if i == 0 && ch >= 0xE000 {
      var q := (ch - GapOffset) / 0x80;
      assert GapThreshold <= q < ReservedStart;
      assert q * 0x80 + GapOffset == ch - ch % 0x80;
    }
  }

  /** For a supplementary code point whose position code needs two bytes, the
      extended define command names the same window and offset. */
  lemma PlacementDefinesExtended(ch: int, w: int)
    requires 0x10000 <= ch <= 0x10FFFF && 0 <= w < 8
    requires PlacementFor(ch, w).code >= 0x100
    ensures ExtendedWindow(PlacementFor(ch, w).code) == (w, PlacementFor(ch, w).offset)
  {
    var q := (ch - 0x10000) / 0x80;
    var code := q + w * 0x2000;
    assert PlacementFor(ch, w).code == code;
    assert 0 <= q < 0x2000;
    assert code / 0x2000 == w && code % 0x2000 == q;
    assert q * 0x80 + 0x10000 == ch - ch % 0x80;
  }

  /** A code point in the first fixed window (0xC0..0x13F) is given an
      ordinary 128-aligned window, never the fixed one. */
  lemma FixedEntryZeroUnused(ch: int, w: int)
    requires InWindow(ch, FixedOffset[0]) && 0 <= w < 8
    ensures PlacementFor(ch, w) == Placed(ch - ch % 0x80, ch / 0x80)
    ensures PlacementFor(ch, w).code != FixedThreshold
  {
  }

  /** A supplementary code point put into window 0 can get a position code
      below 0x100 and so a one-byte define command, which the decoder either
      rejects or reads as a different window. */
  lemma SupplementaryWindowZeroQuirk()
    ensures PlacementFor(0x10000, 0) == Placed(0x10000, 0)
    ensures DefineCommand(0, 0, false) == [SD0, 0] && DefineOffset(0) == Err(ZeroOffset)
    ensures PlacementFor(0x10080, 0) == Placed(0x10080, 1)
    ensures DefineOffset(1) == Ok(0x80)
  {
    NoFixedWindowAbove(0x10000);
    NoFixedWindowAbove(0x10080);
  }

  /** A supplementary character gets a position code below 0x100, and so a
      one-byte define, exactly when it is placed into window 0 and lies
      below U+18000. */
  lemma SupplementaryShortDefine(ch: int, w: int)
    requires 0x10000 <= ch <= 0x10FFFF && 0 <= w < 8
    ensures PlacementFor(ch, w).code < 0x100 <==> w == 0 && ch < 0x18000
  {
    NoFixedWindowAbove(ch);
    assert PlacementFor(ch, w).code == (ch - 0x10000) / 0x80 + w * 0x2000;
  }

  /** No fixed window reaches past the BMP. */
  lemma NoFixedWindowAbove(ch: int)
    requires ch >= 0x10000
    ensures FixedPosition(ch) == 0
  {
    var k := FixedPosition(ch);
    assert FixedOffset[k] < 0xFF80;
  }
}
