/** The decoder as a function over the byte stream: one tag (or literal) at a
    time, each step reading the decoder's window state and producing code
    units and the next state. Unicode mode is part of that state: the tag SCU
    enters it, and UCn, UDn and UDX leave it. */
module ScsuDecoding {
  import opened ScsuTables
  import opened ScsuWindows

  /** The decoder's window state: dynamic offsets, selected window, mode. */
  datatype DState = DState(dyn: seq<int>, sel: int, uni: bool) {
    predicate Valid() {
      |dyn| == 8 && 0 <= sel < 8
    }
  }

  /** The state every call starts from. */
  const Initial: DState := DState(InitialDynamicOffset, 0, false)

  /** The code units of one byte read through a window: below 0x80 through the
      static window, from 0x80 through the dynamic one, and as a surrogate
      pair when the result lies above the BMP. */
  function Emission(b: Byte, staticWindow: int, dynamicWindow: int, dyn: seq<int>): (u: seq<Unit>)
    requires 0 <= staticWindow < 8 && 0 <= dynamicWindow < 8 && |dyn| == 8
    ensures 1 <= |u| <= 2
  {
    if b < 0x80 then [FromCharCode(b + StaticOffset[staticWindow])]
    else
      var c := b - 0x80 + dyn[dynamicWindow];
      if c < 0x10000 then [FromCharCode(c)]
      else
        // 0xDC00 + (c & ~0xFC00) reduced to 16 bits keeps the low ten bits only
        [FromCharCode(0xD800 + (c - 0x10000) / 0x400), FromCharCode(0xDC00 + (c - 0x10000) % 0x400)]
  }

  /** A byte from 0x80 read through a window yields its code point, split into
      a surrogate pair above the BMP. */
  lemma EmissionYieldsCodePoint(b: Byte, sw: int, w: int, dyn: seq<int>)
    requires 0 <= sw < 8 && 0 <= w < 8 && |dyn| == 8 && b >= 0x80
    requires 0 <= b - 0x80 + dyn[w] <= 0x10FFFF
    ensures b - 0x80 + dyn[w] < 0x10000 ==> Emission(b, sw, w, dyn) == [b - 0x80 + dyn[w]]
    ensures b - 0x80 + dyn[w] >= 0x10000 ==>
      |Emission(b, sw, w, dyn)| == 2 &&
      0xD800 <= Emission(b, sw, w, dyn)[0] < 0xDC00 && IsLowSurrogate(Emission(b, sw, w, dyn)[1]) &&
      CombineSurrogates(Emission(b, sw, w, dyn)[0], Emission(b, sw, w, dyn)[1]) == b - 0x80 + dyn[w]
  {
  }

  /** A one-byte define command applied to window `w`. */
  function Define(st: DState, w: int, b: Byte): (r: Result<DState>)
    requires st.Valid() && 0 <= w < 8
    ensures r.Ok? <==> DefineOffset(b).Ok?
    ensures r.Err? ==> r.error == DefineOffset(b).error
    // only window `w` moves, and it becomes the selected one
    ensures r.Ok? ==>
      && r.value.Valid() && r.value.sel == w && r.value.uni == st.uni
      && r.value.dyn[w] == DefineOffset(b).value
      && forall j :: 0 <= j < 8 && j != w ==> r.value.dyn[j] == st.dyn[j]
  {
    match DefineOffset(b)
    case Ok(offset) => Ok(st.(dyn := st.dyn[w := offset], sel := w))
    case Err(e) => Err(e)
  }

  /** An extended define command with argument `v`. */
  function DefineExtended(st: DState, v: Unit): (r: DState)
    requires st.Valid()
    ensures r.Valid() && r.sel == ExtendedWindow(v).0 && r.uni == st.uni
    // only the named window moves
    ensures r.dyn[r.sel] == ExtendedWindow(v).1 && forall j :: 0 <= j < 8 && j != r.sel ==> r.dyn[j] == st.dyn[j]
  {
    var (w, offset) := ExtendedWindow(v);
    st.(dyn := st.dyn[w := offset], sel := w)
  }

  /** One decoding step: consume `width` bytes, emit `out`, go to `st`; or end
      quietly with the output so far; or fail. */
  datatype Step = Next(width: nat, out: seq<Unit>, st: DState) | Halt | Failed(error: Error)

  function SingleByteToken(b: seq<Byte>, st: DState): (r: Step)
    requires |b| > 0 && st.Valid() && !st.uni
  {
    var t := b[0];
    if SQ0 <= t < SQ0 + 8 then
      if |b| < 2 then Failed(EndedPrematurely)
      else Next(2, Emission(b[1], t - SQ0, t - SQ0, st.dyn), st)
    else if t == SDX then
      if |b| < 3 then Halt
      else Next(3, [], DefineExtended(st, CharFromTwoBytes(b[1], b[2])))
    else if SD0 <= t < SD0 + 8 then
      if |b| < 2 then Halt
      else match Define(st, t - SD0, b[1])
        case Ok(st') => Next(2, [], st')
        case Err(e) => Failed(e)
    else if SC0 <= t < SC0 + 8 then Next(1, [], st.(sel := t - SC0))
    else if t == SCU then Next(1, [], st.(uni := true))
    else if t == SQU then
      if |b| < 3 then Halt
      else Next(3, [FromCharCode(CharFromTwoBytes(b[1], b[2]))], st)
    else if t == Srs then Failed(ReservedByte)
    else Next(1, Emission(t, 0, st.sel, st.dyn), st)
  }

  function UnicodeToken(b: seq<Byte>, st: DState): (r: Step)
    requires |b| > 0 && st.Valid() && st.uni
  {
    if |b| < 2 then Failed(EndedPrematurely)
    else
      var t := b[0];
      if UC0 <= t < UC0 + 8 then Next(1, [], st.(sel := t - UC0, uni := false))
      else if UD0 <= t < UD0 + 8 then
        match Define(st, t - UD0, b[1])
        case Ok(st') => Next(2, [], st'.(uni := false))
        case Err(e) => Failed(e)
      else if t == UDX then
        if |b| < 3 then Halt
        else Next(3, [], DefineExtended(st, CharFromTwoBytes(b[1], b[2])).(uni := false))
      else if t == UQU then
        if |b| < 3 then Failed(EndedPrematurely)
        else Next(3, [FromCharCode(CharFromTwoBytes(b[1], b[2]))], st)
      else Next(2, [FromCharCode(CharFromTwoBytes(t, b[1]))], st)
  }

  function Token(b: seq<Byte>, st: DState): (r: Step)
    requires |b| > 0 && st.Valid()
    ensures r.Next? ==> 1 <= r.width <= |b| && r.st.Valid()
  {
    if st.uni then UnicodeToken(b, st) else SingleByteToken(b, st)
  }

  /** The decoder's step on any bytes and state: no step on an empty input
      or on a state the decoder never reaches. */
  function TokenAt(b: seq<Byte>, st: DState): (r: Step)
    ensures r.Next? ==> |b| > 0 && st.Valid() && r == Token(b, st)
  {
    if |b| > 0 && st.Valid() then Token(b, st) else Halt
  }

  /** A function from the remaining bytes and the state to one step. */
  type Tokenizer = (seq<Byte>, DState) -> Step

  function Prepend(out: seq<Unit>, r: Result<seq<Unit>>): Result<seq<Unit>> {
    match r
    case Ok(rest) => Ok(out + rest)
    case Err(e) => Err(e)
  }

  /** The decoding loop driven by `tok`: each step's output followed by the
      rest decoded from the state it leaves. */
  function RunBy(tok: Tokenizer, b: seq<Byte>, st: DState): Result<seq<Unit>>
    decreases |b|
  {
    if |b| == 0 then Ok([])
    else match tok(b, st)
      case Next(n, out, st') => if 1 <= n <= |b| then Prepend(out, RunBy(tok, b[n..], st')) else Ok([])
      case Halt => Ok([])
      case Failed(e) => Err(e)
  }

  /** The decoder's result on `b` from state `st`. */
  function Run(b: seq<Byte>, st: DState): Result<seq<Unit>> {
    RunBy(TokenAt, b, st)
  }

  /** The decoder's result on a whole stream. */
  function Decoding(b: seq<Byte>): Result<seq<Unit>> {
    Run(b, Initial)
  }

  datatype Decoded = Decoded(out: seq<Unit>, st: DState)

  /** When `b` is a sequence of complete steps of `tok` from `st`: what they
      emit and the state they leave. */
  function ChainBy(tok: Tokenizer, b: seq<Byte>, st: DState): Option<Decoded>
    decreases |b|
  {
    if |b| == 0 then Some(Decoded([], st))
    else match tok(b, st)
      case Next(n, out, st') => if 1 <= n <= |b| then Then(out, ChainBy(tok, b[n..], st')) else None
      case _ => None
  }

  function Chain(b: seq<Byte>, st: DState): Option<Decoded> {
    ChainBy(TokenAt, b, st)
  }

  /** Output `out` followed by a chain's. */
  function Then(out: seq<Unit>, c: Option<Decoded>): (r: Option<Decoded>)
    ensures r.Some? <==> c.Some?
    ensures r.Some? ==> r.value.st == c.value.st
  {
    match c
    case Some(d) => Some(Decoded(out + d.out, d.st))
    case None => None
  }

  /** A tokenizer whose steps do not look past the bytes they consume. */
  ghost predicate Extends(tok: Tokenizer) {
    forall t: seq<Byte>, q: seq<Byte>, st: DState {:trigger tok(t + q, st)} ::
      tok(t, st).Next? && tok(t, st).width <= |t| ==> tok(t + q, st) == tok(t, st)
  }

  /** A step does not look past the bytes it consumes. */
  lemma TokenExtends(t: seq<Byte>, q: seq<Byte>, st: DState)
    requires |t| > 0 && st.Valid() && Token(t, st).Next?
    ensures Token(t + q, st) == Token(t, st)
  {
    var b := t + q;
    assert b[0] == t[0];
    if |t| >= 2 { assert b[1] == t[1]; }
    if |t| >= 3 { assert b[2] == t[2]; }
  }

  lemma TokenAtExtends()
    ensures Extends(TokenAt)
  {
    forall t: seq<Byte>, q: seq<Byte>, st: DState | TokenAt(t, st).Next? && TokenAt(t, st).width <= |t|
      ensures TokenAt(t + q, st) == TokenAt(t, st)
    {
      TokenExtends(t, q, st);
    }
  }

  /** A chain from a reachable state ends in a reachable state. */
  lemma {:induction false} ChainValid(b: seq<Byte>, st: DState)
    requires st.Valid() && Chain(b, st).Some?
    ensures Chain(b, st).value.st.Valid()
    decreases |b|
  {
    if |b| > 0 {
      var tk := TokenAt(b, st);
      assert tk.Next? && 1 <= tk.width <= |b|;
      ChainValid(b[tk.width..], tk.st);
    }
  }

  /** A step consuming all of `t` is a chain of its own. */
  lemma ChainOfToken(t: seq<Byte>, st: DState)
    requires |t| > 0 && st.Valid() && Token(t, st).Next? && Token(t, st).width == |t|
    ensures Chain(t, st) == Some(Decoded(Token(t, st).out, Token(t, st).st))
  {
    var tk := Token(t, st);
    assert t[tk.width..] == [];
    assert Chain(t[tk.width..], tk.st) == Some(Decoded([], tk.st));
    assert tk.out + [] == tk.out;
  }

  /** Decoding a stream that starts with a complete chain: the chain's output
      followed by the rest decoded from the state the chain leaves. */
  lemma {:induction false} ChainRunBy(tok: Tokenizer, p: seq<Byte>, q: seq<Byte>, st: DState)
    requires Extends(tok) && ChainBy(tok, p, st).Some?
    ensures RunBy(tok, p + q, st) ==
      Prepend(ChainBy(tok, p, st).value.out, RunBy(tok, q, ChainBy(tok, p, st).value.st))
    decreases |p|
  {
    if |p| == 0 {
      assert p + q == q;
      PrependEmpty(RunBy(tok, q, st));
    } else {
      var tk := tok(p, st);
      assert tk.Next? && 1 <= tk.width <= |p|;
      var rest := p[tk.width..];
      var d := ChainBy(tok, rest, tk.st).value;
      assert tok(p + q, st) == tk;
      assert (p + q)[tk.width..] == rest + q;
      ChainRunBy(tok, rest, q, tk.st);
      PrependTwice(tk.out, d.out, RunBy(tok, q, d.st));
    }
  }

  lemma ChainRun(p: seq<Byte>, q: seq<Byte>, st: DState)
    requires Chain(p, st).Some?
    ensures Run(p + q, st) == Prepend(Chain(p, st).value.out, Run(q, Chain(p, st).value.st))
  {
    TokenAtExtends();
    ChainRunBy(TokenAt, p, q, st);
  }

  lemma PrependEmpty(r: Result<seq<Unit>>)
    ensures Prepend([], r) == r
  {
    if r.Ok? { assert [] + r.value == r.value; }
  }

  lemma PrependTwice(a: seq<Unit>, b: seq<Unit>, r: Result<seq<Unit>>)
    ensures Prepend(a, Prepend(b, r)) == Prepend(a + b, r)
  {
    if r.Ok? { assert a + (b + r.value) == (a + b) + r.value; }
  }

  /** Two chains in a row form one chain. */
  lemma {:induction false} ChainAppendBy(tok: Tokenizer, p: seq<Byte>, q: seq<Byte>, st: DState)
    requires Extends(tok) && ChainBy(tok, p, st).Some? && ChainBy(tok, q, ChainBy(tok, p, st).value.st).Some?
    ensures ChainBy(tok, p + q, st) ==
      Some(Decoded(ChainBy(tok, p, st).value.out + ChainBy(tok, q, ChainBy(tok, p, st).value.st).value.out,
                   ChainBy(tok, q, ChainBy(tok, p, st).value.st).value.st))
    decreases |p|
  {
    if |p| == 0 {
      assert p + q == q;
      var d := ChainBy(tok, q, st).value;
      assert [] + d.out == d.out;
    } else {
      var tk := tok(p, st);
      assert tk.Next? && 1 <= tk.width <= |p|;
      var rest := p[tk.width..];
      var d1 := ChainBy(tok, rest, tk.st).value;
      var d2 := ChainBy(tok, q, d1.st).value;
      assert tok(p + q, st) == tk;
      assert (p + q)[tk.width..] == rest + q;
      ChainAppendBy(tok, rest, q, tk.st);
      assert tk.out + (d1.out + d2.out) == (tk.out + d1.out) + d2.out;
    }
  }

  lemma ChainAppend(p: seq<Byte>, q: seq<Byte>, st: DState)
    requires Chain(p, st).Some? && Chain(q, Chain(p, st).value.st).Some?
    ensures Chain(p + q, st) ==
      Some(Decoded(Chain(p, st).value.out + Chain(q, Chain(p, st).value.st).value.out,
                   Chain(q, Chain(p, st).value.st).value.st))
  {
    TokenAtExtends();
    ChainAppendBy(TokenAt, p, q, st);
  }

  /** ChainAppend for chains whose results are known. */
  lemma ChainJoin(p: seq<Byte>, q: seq<Byte>, st: DState, o1: seq<Unit>, st1: DState, o2: seq<Unit>, st2: DState)
    requires Chain(p, st) == Some(Decoded(o1, st1)) && Chain(q, st1) == Some(Decoded(o2, st2))
    ensures Chain(p + q, st) == Some(Decoded(o1 + o2, st2))
  {
    ChainAppend(p, q, st);
  }

  /** A stream that is a complete chain from the initial state decodes to the
      chain's output. */
  lemma ChainDecodes(p: seq<Byte>)
    requires Chain(p, Initial).Some?
    ensures Decoding(p) == Ok(Chain(p, Initial).value.out)
  {
    ChainRun(p, [], Initial);
    assert p + [] == p;
    var d := Chain(p, Initial).value;
    assert Run([], d.st) == Ok([]);
    assert d.out + [] == d.out;
  }

  /** Always true. It exists only as the trigger of the quantifier in
      Resumes: a proof that asserts `Opened(...)` for some arguments makes
      Resumes usable there, and no other proof unfolds it. */
  ghost predicate Opened(k: nat, str: seq<Byte>, i: nat, done: seq<Unit>, st: DState) {
    true
  }

  /** Decoding `str` gives `done` followed by what the decoder makes of the
      bytes from index `i` on in state `st`; past the end, just `done`.
      The statement sits under a quantifier that only `Opened` triggers, so
      that the methods carrying it in loop invariants do not unfold the
      decoder at every step; the lemmas below open it. */
  ghost predicate Resumes(str: seq<Byte>, i: nat, done: seq<Unit>, st: DState) {
    forall k: nat {:trigger Opened(k, str, i, done, st)} :: Opened(k, str, i, done, st) ==>
      if i <= |str| then Decoding(str) == Prepend(done, Run(str[i..], st)) else Decoding(str) == Ok(done)
  }

  /** Decoding starts at index 0 with nothing written, in the initial state. */
  lemma ResumesStart(str: seq<Byte>)
    ensures Resumes(str, 0, [], Initial)
  {
    assert str[0..] == str;
    PrependEmpty(Decoding(str));
  }

  /** One step of the decoder from index `i`: decoding resumes after the
      step with its output added, or stops where the step stops. */
  lemma ResumeStep(str: seq<Byte>, i: nat, done: seq<Unit>, st: DState)
    requires i < |str| && st.Valid() && Resumes(str, i, done, st)
    ensures match Token(str[i..], st)
      case Next(n, out, st') => Resumes(str, i + n, done + out, st')
      case Halt => Decoding(str) == Ok(done)
      case Failed(e) => Decoding(str) == Err(e)
  {
    assert Opened(0, str, i, done, st);
    var tk := Token(str[i..], st);
    if tk.Next? {
      assert str[i..][tk.width..] == str[i + tk.width..];
      PrependTwice(done, tk.out, Run(str[i + tk.width..], tk.st));
    } else {
      assert done + [] == done;
    }
  }

  // What each tag means to the decoder, one lemma per tag: each states where
  // decoding resumes after it, or how decoding ends there.

  /** SQn quotes the next byte through static and dynamic window n; as the
      last byte it fails. */
  lemma DecodeQuote(str: seq<Byte>, i: nat, done: seq<Unit>, st: DState)
    requires i < |str| && st.Valid() && !st.uni && Resumes(str, i, done, st)
    requires SQ0 <= str[i] < SQ0 + 8
    ensures i + 1 < |str| ==>
      Resumes(str, i + 2, done + Emission(str[i + 1], str[i] - SQ0, str[i] - SQ0, st.dyn), st)
    ensures i + 1 == |str| ==> Decoding(str) == Err(EndedPrematurely)
  {
    ResumeStep(str, i, done, st);
  }

  /** SDX defines the window and offset its two argument bytes name and
      selects that window; cut short, it ends decoding quietly. */
  lemma DecodeDefineExtended(str: seq<Byte>, i: nat, done: seq<Unit>, st: DState)
    requires i < |str| && st.Valid() && !st.uni && Resumes(str, i, done, st)
    requires str[i] == SDX
    ensures i + 2 < |str| ==>
      Resumes(str, i + 3, done, DefineExtended(st, CharFromTwoBytes(str[i + 1], str[i + 2])))
    ensures i + 2 >= |str| ==> Decoding(str) == Ok(done)
  {
    ResumeStep(str, i, done, st);
    if i + 2 < |str| {
      assert str[i..][1] == str[i + 1] && str[i..][2] == str[i + 2];
      assert done + [] == done;
    }
  }

  /** SDn defines window n from its argument byte and selects it, failing on
      a zero or reserved argument; cut short, it ends decoding quietly. */
  lemma DecodeDefine(str: seq<Byte>, i: nat, done: seq<Unit>, st: DState)
    requires i < |str| && st.Valid() && !st.uni && Resumes(str, i, done, st)
    requires SD0 <= str[i] < SD0 + 8
    ensures i + 1 < |str| ==>
      match Define(st, str[i] - SD0, str[i + 1])
      case Ok(st') => Resumes(str, i + 2, done, st')
      case Err(e) => Decoding(str) == Err(e)
    ensures i + 1 == |str| ==> Decoding(str) == Ok(done)
  {
    ResumeStep(str, i, done, st);
    if i + 1 < |str| {
      assert str[i..][1] == str[i + 1];
      assert done + [] == done;
    }
  }

  /** SCn selects window n. */
  lemma DecodeSelect(str: seq<Byte>, i: nat, done: seq<Unit>, st: DState)
    requires i < |str| && st.Valid() && !st.uni && Resumes(str, i, done, st)
    requires SC0 <= str[i] < SC0 + 8
    ensures Resumes(str, i + 1, done, st.(sel := str[i] - SC0))
  {
    ResumeStep(str, i, done, st);
    assert done + [] == done;
  }

  /** SCU switches to Unicode mode. */
  lemma DecodeUnicodeSwitch(str: seq<Byte>, i: nat, done: seq<Unit>, st: DState)
    requires i < |str| && st.Valid() && !st.uni && Resumes(str, i, done, st)
    requires str[i] == SCU
    ensures Resumes(str, i + 1, done, st.(uni := true))
  {
    ResumeStep(str, i, done, st);
    assert done + [] == done;
  }

  /** SQU quotes the code unit its two argument bytes form; cut short, it
      ends decoding quietly. */
  lemma DecodeQuoteUnicode(str: seq<Byte>, i: nat, done: seq<Unit>, st: DState)
    requires i < |str| && st.Valid() && !st.uni && Resumes(str, i, done, st)
    requires str[i] == SQU
    ensures i + 2 < |str| ==> Resumes(str, i + 3, done + [CharFromTwoBytes(str[i + 1], str[i + 2])], st)
    ensures i + 2 >= |str| ==> Decoding(str) == Ok(done)
  {
    ResumeStep(str, i, done, st);
  }

  /** The reserved tag fails. */
  lemma DecodeReserved(str: seq<Byte>, i: nat, done: seq<Unit>, st: DState)
    requires i < |str| && st.Valid() && !st.uni && Resumes(str, i, done, st)
    requires str[i] == Srs
    ensures Decoding(str) == Err(ReservedByte)
  {
    ResumeStep(str, i, done, st);
  }

  /** Any other byte is a character through static window 0 or the selected
      dynamic window. */
  lemma DecodeLiteral(str: seq<Byte>, i: nat, done: seq<Unit>, st: DState)
    requires i < |str| && st.Valid() && !st.uni && Resumes(str, i, done, st)
    requires !(SQ0 <= str[i] < SQ0 + 8) && str[i] != SDX && !(SD0 <= str[i] < SD0 + 8)
    requires !(SC0 <= str[i] < SC0 + 8) && str[i] != SCU && str[i] != SQU && str[i] != Srs
    ensures Resumes(str, i + 1, done + Emission(str[i], 0, st.sel, st.dyn), st)
  {
    ResumeStep(str, i, done, st);
  }

  /** In Unicode mode, UCn selects window n and returns to single-byte mode. */
  lemma DecodeUnicodeSelect(str: seq<Byte>, i: nat, done: seq<Unit>, st: DState)
    requires i + 1 < |str| && st.Valid() && st.uni && Resumes(str, i, done, st)
    requires UC0 <= str[i] < UC0 + 8
    ensures Resumes(str, i + 1, done, st.(sel := str[i] - UC0, uni := false))
  {
    ResumeStep(str, i, done, st);
    assert done + [] == done;
  }

  /** In Unicode mode, UDn defines window n as SDn does and returns to
      single-byte mode. */
  lemma DecodeUnicodeDefine(str: seq<Byte>, i: nat, done: seq<Unit>, st: DState)
    requires i + 1 < |str| && st.Valid() && st.uni && Resumes(str, i, done, st)
    requires UD0 <= str[i] < UD0 + 8
    ensures match Define(st, str[i] - UD0, str[i + 1])
      case Ok(st') => Resumes(str, i + 2, done, st'.(uni := false))
      case Err(e) => Decoding(str) == Err(e)
  {
    ResumeStep(str, i, done, st);
    assert done + [] == done;
  }

  /** In Unicode mode, UDX defines a window as SDX does and returns to
      single-byte mode; cut short after one argument byte, it ends decoding
      quietly. */
  lemma DecodeUnicodeDefineExtended(str: seq<Byte>, i: nat, done: seq<Unit>, st: DState)
    requires i + 1 < |str| && st.Valid() && st.uni && Resumes(str, i, done, st)
    requires str[i] == UDX
    ensures i + 2 < |str| ==>
      Resumes(str, i + 3, done, DefineExtended(st, CharFromTwoBytes(str[i + 1], str[i + 2])).(uni := false))
    ensures i + 2 == |str| ==> Decoding(str) == Ok(done)
  {
    ResumeStep(str, i, done, st);
    assert done + [] == done;
  }

  /** In Unicode mode, UQU quotes the code unit of the next two bytes; cut
      short, it fails. */
  lemma DecodeUnicodeQuote(str: seq<Byte>, i: nat, done: seq<Unit>, st: DState)
    requires i + 1 < |str| && st.Valid() && st.uni && Resumes(str, i, done, st)
    requires str[i] == UQU
    ensures i + 2 < |str| ==> Resumes(str, i + 3, done + [CharFromTwoBytes(str[i + 1], str[i + 2])], st)
    ensures i + 2 == |str| ==> Decoding(str) == Err(EndedPrematurely)
  {
    ResumeStep(str, i, done, st);
  }

  /** In Unicode mode any other byte is the high byte of a code unit. */
  lemma DecodeUnicodeUnit(str: seq<Byte>, i: nat, done: seq<Unit>, st: DState)
    requires i + 1 < |str| && st.Valid() && st.uni && Resumes(str, i, done, st)
    requires !(UC0 <= str[i] < UC0 + 8) && !(UD0 <= str[i] < UD0 + 8) && str[i] != UDX && str[i] != UQU
    ensures Resumes(str, i + 2, done + [CharFromTwoBytes(str[i], str[i + 1])], st)
  {
    ResumeStep(str, i, done, st);
  }

  /** In Unicode mode a lone last byte fails; the end of the stream ends
      decoding in either mode. */
  lemma DecodeEnd(str: seq<Byte>, i: nat, done: seq<Unit>, st: DState)
    requires st.Valid() && Resumes(str, i, done, st)
    ensures i >= |str| ==> Decoding(str) == Ok(done)
    ensures i + 1 == |str| && st.uni ==> Decoding(str) == Err(EndedPrematurely)
  {
    assert Opened(0, str, i, done, st);
    if i == |str| {
      assert done + [] == done;
    } else if i < |str| && st.uni {
      ResumeStep(str, i, done, st);
    }
  }

  /** Decoding a stream that begins with a complete chain `p` and continues
      with `q`. */
  lemma DecodingAfter(p: seq<Byte>, q: seq<Byte>)
    requires Chain(p, Initial).Some?
    ensures Decoding(p + q) == Prepend(Chain(p, Initial).value.out, Run(q, Chain(p, Initial).value.st))
  {
    ChainRun(p, q, Initial);
  }

  /** Byte 0x0C read as a tag in single-byte mode fails the whole call. */
  lemma ReservedByteFails(p: seq<Byte>, q: seq<Byte>)
    requires Chain(p, Initial).Some? && !Chain(p, Initial).value.st.uni
    ensures Decoding(p + ([Srs] + q)) == Err(ReservedByte)
  {
    ChainValid(p, Initial);
    DecodingAfter(p, [Srs] + q);
  }

  /** A quote tag as the last byte fails with "ended prematurely" (0x11). */
  lemma QuoteAtEndFails(p: seq<Byte>, n: int)
    requires Chain(p, Initial).Some? && !Chain(p, Initial).value.st.uni
    requires 0 <= n < 8
    ensures Decoding(p + [SQ0 + n]) == Err(EndedPrematurely)
  {
    ChainValid(p, Initial);
    DecodingAfter(p, [SQ0 + n]);
  }

  /** In Unicode mode a single trailing byte fails with 0x11. */
  lemma OddTrailingByteFails(p: seq<Byte>, x: Byte)
    requires Chain(p, Initial).Some? && Chain(p, Initial).value.st.uni
    ensures Decoding(p + [x]) == Err(EndedPrematurely)
  {
    ChainValid(p, Initial);
    DecodingAfter(p, [x]);
  }

  /** A define, extended define or quote-Unicode tag cut short by the end of
      the stream ends decoding without error, keeping the output so far. */
  lemma TruncatedCommandEndsQuietly(p: seq<Byte>, t: seq<Byte>)
    requires Chain(p, Initial).Some? && !Chain(p, Initial).value.st.uni
    requires (|t| == 1 && SD0 <= t[0] < SD0 + 8) || (1 <= |t| <= 2 && (t[0] == SDX || t[0] == SQU))
    ensures Decoding(p + t) == Ok(Chain(p, Initial).value.out)
  {
    ChainValid(p, Initial);
    DecodingAfter(p, t);
    var out := Chain(p, Initial).value.out;
    assert out + [] == out;
  }

  /** A quote applies to the next byte only: the state after it, including the
      selected window, is the state before it. */
  lemma QuoteIsOneShot(st: DState, n: int, x: Byte, q: seq<Byte>)
    requires st.Valid() && !st.uni && 0 <= n < 8
    ensures Run([SQ0 + n, x] + q, st) == Prepend(Emission(x, n, n, st.dyn), Run(q, st))
  {
    var b := [SQ0 + n, x] + q;
    assert b[0] == SQ0 + n && b[1] == x && b[2..] == q;
  }

  /** The reserved Unicode-mode byte 0xF2 is not rejected: it is read as the
      high byte of a code unit. */
  lemma UnicodeModeAcceptsUrs(st: DState, x: Byte)
    requires st.Valid() && st.uni
    ensures Token([Urs, x], st) == Next(2, [Urs * 0x100 + x], st)
  {
  }
}
