/** What the encoder writes, as functions of its input and window state: the
    bytes of a single-byte run, of a Unicode run and of the commands between
    them, each proved to decode back to the code units it stands for. */
module ScsuEncoding {
  import opened ScsuTables
  import opened ScsuWindows
  import opened ScsuDecoding

  /** One step of a single-byte run at input index `i`, with the selected
      window at `offset`: the bytes for the character there and how many
      code units it spans; or the character that ends the run; or a failure. */
  datatype SbStep = Emit(bytes: seq<Byte>, width: nat) | Stop(ch: int) | Throw(error: Error)

  function SingleByteStep(s: seq<Unit>, i: nat, offset: int): (r: SbStep)
    requires i < |s|
    ensures r.Emit? ==> 1 <= r.width && i + r.width <= |s| && (r.width == 2 <==> IsSurrogate(s[i])) && |r.bytes| >= 1
    ensures r.Stop? ==> 0x80 <= r.ch <= 0x10FFFF && !InWindow(r.ch, offset)
    ensures r.Stop? && !IsSurrogate(s[i]) ==> r.ch == s[i]
    ensures r.Stop? && IsSurrogate(s[i]) ==> r.ch >= 0x10000
    // and any character from 0x80 outside the window, alone or as a pair, ends it
    ensures !IsSurrogate(s[i]) && s[i] >= 0x80 && !InWindow(s[i], offset) ==> r == Stop(s[i])
    ensures
      && IsSurrogate(s[i]) && !IsLowSurrogate(s[i]) && i < |s| - 1 && IsLowSurrogate(s[i + 1])
      && !InWindow(CombineSurrogates(s[i], s[i + 1]), offset)
      ==> r == Stop(CombineSurrogates(s[i], s[i + 1]))
    ensures r.Throw? <==> IsSurrogate(s[i]) && (IsLowSurrogate(s[i]) || i == |s| - 1 || !IsLowSurrogate(s[i + 1]))
    ensures r == Throw(UnpairedLowSurrogate) <==> IsLowSurrogate(s[i])
    ensures r == Throw(EndedPrematurely) <==> IsSurrogate(s[i]) && !IsLowSurrogate(s[i]) && i == |s| - 1
    ensures r == Throw(UnpairedHighSurrogate) <==>
      IsSurrogate(s[i]) && !IsLowSurrogate(s[i]) && i < |s| - 1 && !IsLowSurrogate(s[i + 1])
  {
    if IsSurrogate(s[i]) then
      if IsLowSurrogate(s[i]) then Throw(UnpairedLowSurrogate)
      else if i >= |s| - 1 then Throw(EndedPrematurely)
      else if !IsLowSurrogate(s[i + 1]) then Throw(UnpairedHighSurrogate)
      else SingleByteOf(CombineSurrogates(s[i], s[i + 1]), 2, offset)
    else SingleByteOf(s[i], 1, offset)
  }

  /** The bytes of code point `cp` in single-byte mode. */
  function SingleByteOf(cp: int, width: nat, offset: int): (r: SbStep)
    requires 0 <= cp <= 0x10FFFF
    ensures r.Emit? ==> r.width == width && |r.bytes| >= 1
    ensures r.Stop? <==> cp >= 0x80 && !InWindow(cp, offset)
    ensures r.Stop? ==> r.ch == cp
    ensures !r.Throw?
  {
    if IsAsciiCrLfOrTab(cp) || cp == 0 then Emit([cp % 0x80], width)
    else if cp < 0x20 then Emit([SQ0, cp], width)
    else if InWindow(cp, offset) then Emit([cp - offset + 0x80], width)  // (cp - offset) | 0x80
    else Stop(cp)
  }

  /** The bytes one single-byte step writes decode, in the state the encoder
      is in, to the code units the step consumed; the state is unchanged. */
  lemma SingleByteStepDecodes(s: seq<Unit>, i: nat, st: DState)
    requires i < |s| && st.Valid() && !st.uni
    requires SingleByteStep(s, i, st.dyn[st.sel]).Emit?
    ensures Chain(SingleByteStep(s, i, st.dyn[st.sel]).bytes, st) ==
      Some(Decoded(s[i..i + SingleByteStep(s, i, st.dyn[st.sel]).width], st))
  {
    var offset := st.dyn[st.sel];
    var r := SingleByteStep(s, i, offset);
    var cp := if IsSurrogate(s[i]) then CombineSurrogates(s[i], s[i + 1]) else s[i];
    assert r == SingleByteOf(cp, r.width, offset);
    if IsAsciiCrLfOrTab(cp) || cp == 0 {
      assert r.bytes == [cp] && r.width == 1;
      assert Token(r.bytes, st) == Next(1, [cp], st);
      ChainOfToken(r.bytes, st);
      assert s[i..i + 1] == [cp];
    } else if cp < 0x20 {
      assert r.bytes == [SQ0, cp] && r.width == 1;
      assert Token(r.bytes, st) == Next(2, [cp], st);
      ChainOfToken(r.bytes, st);
      assert s[i..i + 1] == [cp];
    } else {
      var b := cp - offset + 0x80;
      assert r.bytes == [b];
      EmissionYieldsCodePoint(b, 0, st.sel, st.dyn);
      var e := Emission(b, 0, st.sel, st.dyn);
      assert Token(r.bytes, st) == Next(1, e, st);
      ChainOfToken(r.bytes, st);
      if r.width == 2 {
        assert e[0] == s[i] && e[1] == s[i + 1];
        assert s[i..i + 2] == e;
      } else {
        assert s[i..i + 1] == e;
      }
    }
  }

  /** A step that stops on `ch` would emit `ch` were a window holding it
      selected. */
  lemma StopAfterSelect(s: seq<Unit>, i: nat, offset: int, offset': int)
    requires i < |s| && SingleByteStep(s, i, offset).Stop?
    requires InWindow(SingleByteStep(s, i, offset).ch, offset')
    ensures SingleByteStep(s, i, offset').Emit?
  {
  }

  /** A BMP character below 0x80, or one in the selected window, is written
      by the run rather than ending it. */
  lemma WindowCharEmits(s: seq<Unit>, i: nat, offset: int)
    requires i < |s| && (s[i] < 0x80 || (IsCompressible(s[i]) && InWindow(s[i], offset)))
    ensures SingleByteStep(s, i, offset).Emit?
  {
  }

  /** The two bytes that quote `ch` from window `k`: through the dynamic
      window when it holds `ch`, otherwise through the static one. */
  function QuoteBytes(ch: int, k: int, dyn: seq<int>): (b: seq<Byte>)
    requires 0 <= k < 8 && |dyn| == 8 && (InWindow(ch, dyn[k]) || InWindow(ch, StaticOffset[k]))
    ensures |b| == 2 && b[0] == SQ0 + k
    ensures InWindow(ch, dyn[k]) <==> b[1] >= 0x80
  {
    if InWindow(ch, dyn[k]) then [SQ0 + k, ch - dyn[k] + 0x80]  // (ch - offset) | 0x80
    else [SQ0 + k, ch - StaticOffset[k]]
  }

  /** A quoted BMP character decodes to itself and leaves the state as it
      was, whichever window is selected. */
  lemma QuoteBytesDecode(ch: int, k: int, st: DState)
    requires st.Valid() && !st.uni && 0 <= k < 8 && 0 <= ch < 0x10000
    requires InWindow(ch, st.dyn[k]) || InWindow(ch, StaticOffset[k])
    ensures Chain(QuoteBytes(ch, k, st.dyn), st) == Some(Decoded([ch], st))
  {
    var b := QuoteBytes(ch, k, st.dyn);
    assert Token(b, st) == Next(2, [ch], st);
    ChainOfToken(b, st);
  }

  /** What a single-byte run writes, where it stops, and how: Ok with the
      character that ended it (0 at the end of the input) or Err. */
  datatype SbRun = SbRun(bytes: seq<Byte>, next: nat, outcome: Result<int>)

  function SingleByteRun(s: seq<Unit>, i: nat, offset: int): (r: SbRun)
    requires i <= |s|
    ensures i <= r.next <= |s|
    decreases |s| - i
  {
    if i == |s| then SbRun([], i, Ok(0))
    else match SingleByteStep(s, i, offset)
      case Emit(b, w) =>
        var r := SingleByteRun(s, i + w, offset);
        SbRun(b + r.bytes, r.next, r.outcome)
      case Stop(ch) => SbRun([], i, Ok(ch))
      case Throw(e) => SbRun([], i, Err(e))
  }

  /** A run ends at the end of the input, with 0, or at the first step that
      does not emit: with the character that stops it, or with the failure;
      every step before that emits. */
  lemma {:induction false} SingleByteRunEnds(s: seq<Unit>, i: nat, offset: int)
    requires i <= |s|
    ensures var r := SingleByteRun(s, i, offset);
      && (r.outcome.Ok? ==>
            (r.next == |s| && r.outcome.value == 0) ||
            (r.next < |s| && SingleByteStep(s, r.next, offset) == Stop(r.outcome.value)))
      && (r.outcome.Err? ==> r.next < |s| && SingleByteStep(s, r.next, offset) == Throw(r.outcome.error))
      && (i < |s| && SingleByteStep(s, i, offset).Emit? ==> i < r.next)
    decreases |s| - i
  {
    if i < |s| && SingleByteStep(s, i, offset).Emit? {
      SingleByteRunEnds(s, i + SingleByteStep(s, i, offset).width, offset);
    }
  }

  /** A run goes on after a step that emits, and ends at one that does not. */
  lemma SingleByteRunUnfold(s: seq<Unit>, i: nat, offset: int)
    requires i < |s|
    ensures var step := SingleByteStep(s, i, offset);
      SingleByteRun(s, i, offset) ==
      match step
      case Emit(b, w) =>
        SbRun(b + SingleByteRun(s, i + w, offset).bytes, SingleByteRun(s, i + w, offset).next,
              SingleByteRun(s, i + w, offset).outcome)
      case Stop(ch) => SbRun([], i, Ok(ch))
      case Throw(e) => SbRun([], i, Err(e))
  {
  }

  /** Where a run that has written `done` stands at index `j`: a step that
      does not emit ends it there, and one that emits extends `done`. */
  lemma SingleByteRunAt(s: seq<Unit>, i0: nat, j: nat, offset: int, done: seq<Byte>)
    requires i0 <= j < |s|
    requires SingleByteRun(s, i0, offset) == SbRun(done + SingleByteRun(s, j, offset).bytes,
      SingleByteRun(s, j, offset).next, SingleByteRun(s, j, offset).outcome)
    ensures match SingleByteStep(s, j, offset)
      case Stop(ch) => SingleByteRun(s, i0, offset) == SbRun(done, j, Ok(ch))
      case Throw(e) => SingleByteRun(s, i0, offset) == SbRun(done, j, Err(e))
      case Emit(b, w) =>
        var rest := SingleByteRun(s, j + w, offset);
        SingleByteRun(s, i0, offset) == SbRun((done + b) + rest.bytes, rest.next, rest.outcome)
  {
    SingleByteRunUnfold(s, j, offset);
    match SingleByteStep(s, j, offset)
    case Emit(b, w) =>
      var rest := SingleByteRun(s, j + w, offset);
      assert done + (b + rest.bytes) == (done + b) + rest.bytes;
    case _ =>
      assert done + [] == done;
  }

  /** A whole single-byte run decodes back to the code units it consumed. */
  lemma {:induction false} SingleByteRunDecodes(s: seq<Unit>, i: nat, st: DState)
    requires i <= |s| && st.Valid() && !st.uni
    ensures Chain(SingleByteRun(s, i, st.dyn[st.sel]).bytes, st) ==
      Some(Decoded(s[i..SingleByteRun(s, i, st.dyn[st.sel]).next], st))
    decreases |s| - i
  {
    var offset := st.dyn[st.sel];
    if i < |s| && SingleByteStep(s, i, offset).Emit? {
      var step := SingleByteStep(s, i, offset);
      var rest := SingleByteRun(s, i + step.width, offset);
      SingleByteRunDecodes(s, i + step.width, st);
      SingleByteRunUnfold(s, i, offset);
      assert SingleByteRun(s, i, offset) == SbRun(step.bytes + rest.bytes, rest.next, rest.outcome);
      EmitThenRunDecodes(s, i, st, step.bytes, step.width, rest.bytes, rest.next);
    } else {
      if i < |s| {
        SingleByteRunUnfold(s, i, offset);
      }
      assert SingleByteRun(s, i, offset).bytes == [] && SingleByteRun(s, i, offset).next == i;
      assert s[i..i] == [];
    }
  }

  /** The inductive step of SingleByteRunDecodes: a step that emits,
      followed by bytes that decode to the units after it, decodes to the
      units from `i` on. */
  lemma EmitThenRunDecodes(s: seq<Unit>, i: nat, st: DState, b: seq<Byte>, w: nat, q: seq<Byte>, n: nat)
    requires i < |s| && st.Valid() && !st.uni
    requires SingleByteStep(s, i, st.dyn[st.sel]) == Emit(b, w)
    requires i + w <= n <= |s| && Chain(q, st) == Some(Decoded(s[i + w..n], st))
    ensures Chain(b + q, st) == Some(Decoded(s[i..n], st))
  {
    SingleByteStepDecodes(s, i, st);
    ChainJoin(b, q, st, s[i..i + w], st, s[i + w..n], st);
    assert s[i..i + w] + s[i + w..n] == s[i..n];
  }

  /** A Unicode run stops before index `i` when the unit there and the next
      one are both compressible. */
  predicate UnicodeRunEndsAt(s: seq<Unit>, i: nat) {
    i + 1 < |s| && IsCompressible(s[i]) && IsCompressible(s[i + 1])
  }

  /** The first index at or after `i` whose unit is from 0x80, or `|s|`. */
  function NextWide(s: seq<Unit>, i: nat): (k: nat)
    requires i <= |s|
    ensures i <= k <= |s| && (k < |s| ==> s[k] >= 0x80)
    ensures forall j :: i <= j < k ==> s[j] < 0x80
    decreases |s| - i
  {
    if i == |s| || s[i] >= 0x80 then i else NextWide(s, i + 1)
  }

  /** The bytes of one code unit in a Unicode run: high byte first, after the
      escape UQU exactly when the unit would otherwise read as a tag. */
  function UnitBytes(c: Unit): (b: seq<Byte>)
    ensures |b| == 3 <==> 0xE000 <= c <= 0xF2FF
    ensures |b| == 2 || |b| == 3
    ensures |b| == 3 ==> b[0] == UQU
    ensures CharFromTwoBytes(b[|b| - 2], b[|b| - 1]) == c
  {
    (if 0xE000 <= c <= 0xF2FF then [UQU] else []) + [c / 0x100, c % 0x100]
  }

  /** The bytes of a Unicode run over the code units `s[i..j]`. */
  function UnicodeBytes(s: seq<Unit>, i: nat, j: nat): seq<Byte>
    requires i <= j <= |s|
    decreases j - i
  {
    if i == j then [] else UnicodeBytes(s, i, j - 1) + UnitBytes(s[j - 1])
  }

  /** In Unicode mode the bytes of one unit decode to that unit. */
  lemma UnitBytesDecode(c: Unit, st: DState)
    requires st.Valid() && st.uni
    ensures Chain(UnitBytes(c), st) == Some(Decoded([c], st))
  {
    ChainOfToken(UnitBytes(c), st);
  }

  /** In Unicode mode the bytes of a run decode to the run's units. */
  lemma {:induction false} UnicodeBytesDecode(s: seq<Unit>, i: nat, j: nat, st: DState)
    requires i <= j <= |s| && st.Valid() && st.uni
    ensures Chain(UnicodeBytes(s, i, j), st) == Some(Decoded(s[i..j], st))
    decreases j - i
  {
    if i < j {
      var p, q := UnicodeBytes(s, i, j - 1), UnitBytes(s[j - 1]);
      assert UnicodeBytes(s, i, j) == p + q;
      UnicodeBytesDecode(s, i, j - 1, st);
      UnitBytesDecode(s[j - 1], st);
      ChainJoin(p, q, st, s[i..j - 1], st, [s[j - 1]], st);
      assert s[i..j - 1] + [s[j - 1]] == s[i..j];
    } else {
      assert s[i..j] == [];
    }
  }

  /** A run writes at least two bytes per unit, so a run of exactly two bytes
      is one unit written without escape. */
  lemma {:induction false} UnicodeBytesLength(s: seq<Unit>, i: nat, j: nat)
    requires i <= j <= |s|
    ensures |UnicodeBytes(s, i, j)| >= 2 * (j - i)
    ensures |UnicodeBytes(s, i, j)| == 2 ==>
      j == i + 1 && !(0xE000 <= s[i] <= 0xF2FF) && UnicodeBytes(s, i, j) == [s[i] / 0x100, s[i] % 0x100]
    decreases j - i
  {
    if i < j {
      UnicodeBytesLength(s, i, j - 1);
    }
  }

  /** A one-unit run whose marker became SQU decodes, in single-byte mode, to
      that unit and leaves the state as it was. */
  lemma QuotedUnitDecodes(c: Unit, st: DState)
    requires st.Valid() && !st.uni
    ensures Chain([SQU, c / 0x100, c % 0x100], st) == Some(Decoded([c], st))
  {
    ChainOfToken([SQU, c / 0x100, c % 0x100], st);
  }

  /** The define command for a BMP code point outside the gap redefines the
      chosen window to the placement's offset, selects it and leaves Unicode
      mode, in either mode. */
  lemma DefineCommandDecodes(ch: int, w: int, st: DState)
    requires 0x80 <= ch <= 0xFFFF && IsCompressible(ch) && 0 <= w < 8 && st.Valid()
    ensures PlacementFor(ch, w).Placed?
    ensures Chain(DefineCommand(PlacementFor(ch, w).code, w, st.uni), st) ==
      Some(Decoded([], DState(st.dyn[w := PlacementFor(ch, w).offset], w, false)))
  {
    PlacementDefinesBmp(ch, w);
    var p := PlacementFor(ch, w);
    ChainOfToken(DefineCommand(p.code, w, st.uni), st);
  }

  /** The same for a supplementary code point whose position code needs the
      extended command. */
  lemma DefineCommandDecodesExtended(ch: int, w: int, st: DState)
    requires 0x10000 <= ch <= 0x10FFFF && 0 <= w < 8 && st.Valid()
    requires PlacementFor(ch, w).code >= 0x100
    ensures Chain(DefineCommand(PlacementFor(ch, w).code, w, st.uni), st) ==
      Some(Decoded([], DState(st.dyn[w := PlacementFor(ch, w).offset], w, false)))
  {
    PlacementDefinesExtended(ch, w);
    var p := PlacementFor(ch, w);
    ChainOfToken(DefineCommand(p.code, w, st.uni), st);
  }

  /** A select command selects window `k` and leaves the decoder in
      single-byte mode: SCn in single-byte mode; in Unicode mode UCn, which
      the decoder reads only when at least one more byte follows it. */
  lemma SelectDecodes(k: int, st: DState)
    requires 0 <= k < 8 && st.Valid() && !st.uni
    ensures Chain([SC0 + k], st) == Some(Decoded([], st.(sel := k)))
  {
    ChainOfToken([SC0 + k], st);
  }

  lemma {:induction false} UnicodeSelectDecodes(k: int, b: seq<Byte>, st: DState)
    requires 0 <= k < 8 && st.Valid() && st.uni && |b| > 0
    requires Chain(b, st.(sel := k, uni := false)).Some?
    ensures Chain([UC0 + k] + b, st) == Chain(b, st.(sel := k, uni := false))
  {
    var t := [UC0 + k] + b;
    assert t[0] == UC0 + k && t[1..] == b;
    assert Token(t, st) == Next(1, [], st.(sel := k, uni := false));
    var d := Chain(b, st.(sel := k, uni := false)).value;
    assert [] + d.out == d.out;
  }

  /** SCU enters Unicode mode. */
  lemma UnicodeSwitchDecodes(st: DState)
    requires st.Valid() && !st.uni
    ensures Chain([SCU], st) == Some(Decoded([], st.(uni := true)))
  {
    ChainOfToken([SCU], st);
  }

  // The encoder's output as it grows: each command or run the encoder
  // appends extends what the output decodes to.

  /** Always true. It exists only as the trigger of the quantifier in
      Produces, as `Opened` is for Resumes: only a proof that asserts
      `Written(...)` looks inside Produces. */
  ghost predicate Written(k: nat, out: seq<Byte>, done: seq<Unit>, st: DState) {
    true
  }

  /** The output `out` is a sequence of complete decoder steps from the
      initial state that emits `done` and leaves the decoder in state `st`.
      Hidden behind `Written` as Resumes is behind Opened. */
  ghost predicate Produces(out: seq<Byte>, done: seq<Unit>, st: DState) {
    forall k: nat {:trigger Written(k, out, done, st)} :: Written(k, out, done, st) ==>
      Chain(out, Initial) == Some(Decoded(done, st))
  }

  lemma ProducesStart()
    ensures Produces([], [], Initial)
  {
  }

  /** Output that produces `done` decodes to `done`. */
  lemma ProducesDecodes(out: seq<Byte>, done: seq<Unit>, st: DState)
    requires Produces(out, done, st)
    ensures Decoding(out) == Ok(done)
  {
    assert Written(0, out, done, st);
    ChainDecodes(out);
  }

  /** Output that produces the whole input decodes to it. */
  lemma ProducesAll(out: seq<Byte>, s: seq<Unit>, st: DState)
    requires Produces(out, s[..|s|], st)
    ensures Decoding(out) == Ok(s)
  {
    ProducesDecodes(out, s[..|s|], st);
    assert s[..|s|] == s;
  }

  /** Bytes that decode on their own from the state the output leaves extend
      what it produces. */
  lemma ProducesMore(out: seq<Byte>, done: seq<Unit>, st: DState, b: seq<Byte>, more: seq<Unit>, st': DState)
    requires Produces(out, done, st) && Chain(b, st) == Some(Decoded(more, st'))
    ensures Produces(out + b, done + more, st')
  {
    assert Written(0, out, done, st);
    ChainJoin(out, b, Initial, done, st, more, st');
  }

  /** A single-byte run extends the output by the units it consumed. */
  lemma SingleByteRunExtends(out: seq<Byte>, s: seq<Unit>, i: nat, st: DState)
    requires i <= |s| && st.Valid() && !st.uni && Produces(out, s[..i], st)
    ensures Produces(out + SingleByteRun(s, i, st.dyn[st.sel]).bytes, s[..SingleByteRun(s, i, st.dyn[st.sel]).next], st)
  {
    var run := SingleByteRun(s, i, st.dyn[st.sel]);
    SingleByteRunDecodes(s, i, st);
    ProducesMore(out, s[..i], st, run.bytes, s[i..run.next], st);
    assert s[..i] + s[i..run.next] == s[..run.next];
  }

  /** UCn written in Unicode mode and then a single-byte run whose first
      step emits: the run's bytes complete the select command. */
  lemma SelectThenRunExtends(pre: seq<Byte>, k: int, s: seq<Unit>, i: nat, st: DState)
    requires 0 <= k < 8 && i < |s| && st.Valid() && st.uni && Produces(pre, s[..i], st)
    requires SingleByteStep(s, i, st.dyn[k]).Emit?
    ensures var run := SingleByteRun(s, i, st.dyn[k]);
      Produces((pre + [UC0 + k]) + run.bytes, s[..run.next], st.(sel := k, uni := false))
  {
    var st' := st.(sel := k, uni := false);
    var run := SingleByteRun(s, i, st.dyn[k]);
    SingleByteRunDecodes(s, i, st');
    SingleByteRunUnfold(s, i, st.dyn[k]);
    SelectThenExtends(pre, s[..i], k, run.bytes, s[i..run.next], st, st');
    assert s[..i] + s[i..run.next] == s[..run.next];
  }

  /** UCn followed by bytes that decode in the selected window's single-byte
      mode extends the output by what they decode to. */
  lemma SelectThenExtends(pre: seq<Byte>, done: seq<Unit>, k: int, b: seq<Byte>, more: seq<Unit>, st: DState, st': DState)
    requires 0 <= k < 8 && st.Valid() && st.uni && Produces(pre, done, st) && |b| > 0
    requires Chain(b, st.(sel := k, uni := false)) == Some(Decoded(more, st'))
    ensures Produces((pre + [UC0 + k]) + b, done + more, st')
  {
    UnicodeSelectDecodes(k, b, st);
    ProducesMore(pre, done, st, [UC0 + k] + b, more, st');
    assert (pre + [UC0 + k]) + b == pre + ([UC0 + k] + b);
  }

  /** SCU and a Unicode run extend the output by the run's units, in Unicode
      mode. */
  lemma UnicodeRunExtends(pre: seq<Byte>, s: seq<Unit>, i: nat, j: nat, st: DState)
    requires i <= j <= |s| && st.Valid() && !st.uni && Produces(pre, s[..i], st)
    ensures Produces((pre + [SCU]) + UnicodeBytes(s, i, j), s[..j], st.(uni := true))
  {
    var st' := st.(uni := true);
    UnicodeSwitchDecodes(st);
    ProducesMore(pre, s[..i], st, [SCU], [], st');
    assert s[..i] + [] == s[..i];
    UnicodeBytesDecode(s, i, j, st');
    ProducesMore(pre + [SCU], s[..i], st', UnicodeBytes(s, i, j), s[i..j], st');
    assert s[..i] + s[i..j] == s[..j];
  }

  /** A Unicode run of two bytes after SCU, with SCU changed into SQU, is a
      quote of one unit: the output grows by that unit and the decoder stays
      in single-byte mode. */
  lemma QuotedRunExtends(pre: seq<Byte>, s: seq<Unit>, i: nat, j: nat, st: DState)
    requires i <= j <= |s| && st.Valid() && !st.uni && Produces(pre, s[..i], st)
    requires |UnicodeBytes(s, i, j)| == 2
    ensures j == i + 1
    ensures Produces(((pre + [SCU]) + UnicodeBytes(s, i, j))[|pre| := SQU], s[..j], st)
  {
    UnicodeBytesLength(s, i, j);
    var c := s[i];
    assert ((pre + [SCU]) + UnicodeBytes(s, i, j))[|pre| := SQU] == pre + [SQU, c / 0x100, c % 0x100];
    QuotedUnitDecodes(c, st);
    ProducesMore(pre, s[..i], st, [SQU, c / 0x100, c % 0x100], [c], st);
    assert s[..i] + [c] == s[..j];
  }

  /** A quote of the character at `i` extends the output by that character
      and leaves the state as it was. */
  lemma QuoteExtends(out: seq<Byte>, s: seq<Unit>, i: nat, k: int, st: DState)
    requires i < |s| && 0 <= k < 8 && st.Valid() && !st.uni && Produces(out, s[..i], st)
    requires InWindow(s[i], st.dyn[k]) || InWindow(s[i], StaticOffset[k])
    ensures Produces(out + QuoteBytes(s[i], k, st.dyn), s[..i + 1], st)
  {
    QuoteBytesDecode(s[i], k, st);
    ProducesMore(out, s[..i], st, QuoteBytes(s[i], k, st.dyn), [s[i]], st);
    assert s[..i] + [s[i]] == s[..i + 1];
  }

  /** SCn selects window `k` without output. */
  lemma SelectExtends(out: seq<Byte>, done: seq<Unit>, k: int, st: DState)
    requires 0 <= k < 8 && st.Valid() && !st.uni && Produces(out, done, st)
    ensures Produces(out + [SC0 + k], done, st.(sel := k))
  {
    SelectDecodes(k, st);
    ProducesMore(out, done, st, [SC0 + k], [], st.(sel := k));
    assert done + [] == done;
  }

  /** A define command for a BMP character outside the gap moves window `w`
      to the placement's offset, selects it and leaves Unicode mode, without
      output. */
  lemma DefineExtends(out: seq<Byte>, done: seq<Unit>, ch: int, w: int, st: DState)
    requires 0x80 <= ch <= 0xFFFF && IsCompressible(ch) && 0 <= w < 8 && st.Valid() && Produces(out, done, st)
    ensures PlacementFor(ch, w).Placed?
    ensures Produces(out + DefineCommand(PlacementFor(ch, w).code, w, st.uni), done,
      DState(st.dyn[w := PlacementFor(ch, w).offset], w, false))
  {
    DefineCommandDecodes(ch, w, st);
    var p := PlacementFor(ch, w);
    ProducesMore(out, done, st, DefineCommand(p.code, w, st.uni), [], DState(st.dyn[w := p.offset], w, false));
    assert done + [] == done;
  }
}
