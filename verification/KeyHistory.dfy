/** What a keyboard types over a sequence of scancodes. */
module KeyHistory {
  import opened Prelude
  import opened Keys
  import opened LineDiscipline

  // ---------------------------------------------------------------------------
  // The layout
  // ---------------------------------------------------------------------------

  const DIGIT_ROW := [Num1, Num2, Num3, Num4, Num5, Num6, Num7, Num8, Num9, Num0, Minus, Equals, Backspace, Tab]
  const TOP_ROW := [Q, W, E, R, T, Y, U, I, O, P, LeftBracket, RightBracket, Enter, LeftCtrl]
  const HOME_ROW := [A, S, D, F, G, H, J, K, L, Semicolon, Apostrophe, Grave, LeftShift]
  const BOTTOM_ROW := [Backslash, Z, X, C, V, B, N, M, Comma, Period, Slash, RightShift]

  /** The keys of the upper rows in the order of their scancodes. */
  lemma DigitKeys(i: nat)
    requires i < |DIGIT_ROW|
    ensures ScancodeToKeycode(0x02 + i) == Some(DIGIT_ROW[i])
  {
  }

  lemma TopKeys(i: nat)
    requires i < |TOP_ROW|
    ensures ScancodeToKeycode(0x10 + i) == Some(TOP_ROW[i])
  {
  }

  /** And of the lower rows. */
  lemma HomeKeys(i: nat)
    requires i < |HOME_ROW|
    ensures ScancodeToKeycode(0x1E + i) == Some(HOME_ROW[i])
  {
  }

  lemma BottomKeys(i: nat)
    requires i < |BOTTOM_ROW|
    ensures ScancodeToKeycode(0x2B + i) == Some(BOTTOM_ROW[i])
  {
  }

  /** A letter key types its letter. Shift and caps lock lower the byte by 32, and cancel each other. */
  function LetterByte(i: nat, shifted: bool, caps: bool): nat {
    if shifted != caps then 65 + i else 97 + i
  }

  const A_TO_I := [A, B, C, D, E, F, G, H, I]
  const J_TO_R := [J, K, L, M, N, O, P, Q, R]
  const S_TO_Z := [S, T, U, V, W, X, Y, Z]

  lemma LettersToI(i: nat, shifted: bool, caps: bool)
    requires i < |A_TO_I|
    ensures KeycodeToAscii(A_TO_I[i], shifted, caps) == Some(LetterByte(i, shifted, caps))
  {
  }

  lemma LettersToR(i: nat, shifted: bool, caps: bool)
    requires i < |J_TO_R|
    ensures KeycodeToAscii(J_TO_R[i], shifted, caps) == Some(LetterByte(9 + i, shifted, caps))
  {
  }

  lemma LettersToZ(i: nat, shifted: bool, caps: bool)
    requires i < |S_TO_Z|
    ensures KeycodeToAscii(S_TO_Z[i], shifted, caps) == Some(LetterByte(18 + i, shifted, caps))
  {
  }

  /** Every other key types one character or, with shift, another, whatever caps lock says. */
  function Symbol(plain: string, upper: string, i: nat, shifted: bool): byte
    requires i < |plain| == |upper|
  {
    (if shifted then upper[i] else plain[i]) as int % 256
  }

  lemma Digits(i: nat, shifted: bool, caps: bool)
    requires i < 12
    ensures KeycodeToAscii(DIGIT_ROW[i], shifted, caps) == Some(Symbol("1234567890-=", "!@#$%^&*()_+", i, shifted))
  {
  }

  const BRACKETS := [LeftBracket, RightBracket, Backslash, Semicolon, Apostrophe]
  const MARKS := [Grave, Comma, Period, Slash]
  const BLANKS := [Space, Tab, Enter, Backspace]

  lemma Brackets(i: nat, shifted: bool, caps: bool)
    requires i < |BRACKETS|
    ensures KeycodeToAscii(BRACKETS[i], shifted, caps) == Some(Symbol("[]\\;'", "{}|:\"", i, shifted))
  {
  }

  lemma Marks(i: nat, shifted: bool, caps: bool)
    requires i < |MARKS|
    ensures KeycodeToAscii(MARKS[i], shifted, caps) == Some(Symbol("`,./", "~<>?", i, shifted))
  {
  }

  lemma Blanks(i: nat, shifted: bool, caps: bool)
    requires i < |BLANKS|
    ensures KeycodeToAscii(BLANKS[i], shifted, caps) == Some([32, 9, LF, BS][i])
  {
  }

  /** The other keys type nothing. */
  predicate IsSilent(key: KeyCode, shifted: bool, caps: bool) {
    KeycodeToAscii(key, shifted, caps) == None
  }

  lemma FunctionKeysAreSilent(key: KeyCode, s: bool, c: bool)
    ensures key == F1 || key == F2 || key == F3 || key == F4 || key == F5 || key == F6 ==> IsSilent(key, s, c)
  {
  }

  lemma LaterFunctionKeysAreSilent(key: KeyCode, s: bool, c: bool)
    ensures key == F7 || key == F8 || key == F9 || key == F10 || key == F11 || key == F12 ==> IsSilent(key, s, c)
    ensures key == Escape ==> IsSilent(key, s, c)
  {
  }

  lemma ModifierKeysAreSilent(key: KeyCode, s: bool, c: bool)
    ensures key == LeftShift || key == RightShift || key == LeftCtrl || key == RightCtrl ==> IsSilent(key, s, c)
    ensures key == LeftAlt || key == RightAlt || key == CapsLock ==> IsSilent(key, s, c)
  {
  }

  lemma CursorKeysAreSilent(key: KeyCode, s: bool, c: bool)
    ensures key == ArrowUp || key == ArrowDown || key == ArrowLeft || key == ArrowRight ==> IsSilent(key, s, c)
  {
  }

  lemma PageKeysAreSilent(key: KeyCode, s: bool, c: bool)
    ensures key == Home || key == End || key == PageUp || key == PageDown ==> IsSilent(key, s, c)
    ensures key == Insert || key == Delete ==> IsSilent(key, s, c)
  {
  }

  // ---------------------------------------------------------------------------
  // One scancode
  // ---------------------------------------------------------------------------

  datatype Modifier = Shift | Ctrl | Alt

  /** The scancodes of the modifier keys, pressed or released; `ext` says that the prefix 0xE0 came before. */
  predicate IsModifier(mod: Modifier, ext: bool, code: byte) {
    var c := code % 0x80;
    match mod
    case Shift => !ext && (c == 0x2A || c == 0x36)
    case Ctrl => c == 0x1D
    case Alt => c == 0x38
  }

  predicate IsCaps(ext: bool, code: byte) {
    !ext && code % 0x80 == 0x3A
  }

  function State(m: Modifiers, mod: Modifier): bool {
    match mod
    case Shift => m.shift
    case Ctrl => m.ctrl
    case Alt => m.alt
  }

  function KeyOf(ext: bool, code: byte): Option<KeyCode> {
    if ext then ExtendedScancodeToKeycode(code) else ScancodeToKeycode(code)
  }

  lemma ModifierCodes(ext: bool, code: byte)
    ensures
      var key := KeyOf(ext, code);
      && (key == Some(LeftShift) || key == Some(RightShift) <==> IsModifier(Shift, ext, code))
      && (key == Some(LeftCtrl) || key == Some(RightCtrl) <==> IsModifier(Ctrl, ext, code))
      && (key == Some(LeftAlt) || key == Some(RightAlt) <==> IsModifier(Alt, ext, code))
      && (key == Some(CapsLock) <==> IsCaps(ext, code))
  {
  }

  lemma DecodeIs(m: Modifiers, code: byte, key: KeyCode)
    requires code != 0xE0 && KeyOf(m.extended, code) == Some(key)
    ensures Decode(m, code) == DecodeKey(m.(extended := false), key, KeycodeToAscii(key, m.shift, m.caps), code >= 0x80)
  {
  }

  predicate IsKeyOf(mod: Modifier, key: KeyCode) {
    match mod
    case Shift => key == LeftShift || key == RightShift
    case Ctrl => key == LeftCtrl || key == RightCtrl
    case Alt => key == LeftAlt || key == RightAlt
  }

  lemma ModifierStep(m: Modifiers, key: KeyCode, release: bool, mod: Modifier)
    ensures
      var after := ModifiersAfter(m, key, release);
      var m' := if after.Some? then after.value else m;
      && m'.extended == m.extended && m'.caps == (m.caps != (key == CapsLock && !release))
      && State(m', mod) == if IsKeyOf(mod, key) then !release else State(m, mod)
  {
    if key == LeftShift || key == RightShift {
    } else if key == LeftCtrl || key == RightCtrl {
    } else if key == LeftAlt || key == RightAlt {
    }
  }

  lemma KeyStep(m: Modifiers, key: KeyCode, typed: Option<byte>, release: bool, mod: Modifier)
    ensures
      var m' := DecodeKey(m, key, typed, release).0;
      && m'.extended == m.extended && m'.caps == (m.caps != (key == CapsLock && !release))
      && State(m', mod) == if IsKeyOf(mod, key) then !release else State(m, mod)
  {
    ModifierStep(m, key, release, mod);
  }

  /** A modifier is held from a press of one of its keys to the next release of one; caps lock turns with every
      press; the prefix lasts for one scancode. */
  lemma ModifiersStep(m: Modifiers, code: byte, mod: Modifier)
    ensures
      var m' := Decode(m, code).0;
      && m'.extended == (code == 0xE0)
      && State(m', mod) == (if IsModifier(mod, m.extended, code) then code < 0x80 else State(m, mod))
      && m'.caps == (m.caps != (IsCaps(m.extended, code) && code < 0x80))
  {
    ModifierCodes(m.extended, code);
    var key := KeyOf(m.extended, code);
    if code != 0xE0 && key.Some? {
      DecodeIs(m, code, key.value);
      KeyStep(m.(extended := false), key.value, KeycodeToAscii(key.value, m.shift, m.caps), code >= 0x80, mod);
    }
  }

  /** The scancodes of the remaining keys that matter by themselves. */
  lemma PlainCodes(code: byte, i: nat)
    requires i < 6
    ensures ScancodeToKeycode(code) == Some(C) <==> code % 0x80 == 0x2E
    ensures ScancodeToKeycode(code) == Some(D) <==> code % 0x80 == 0x20
    ensures ScancodeToKeycode(code) == Some([F1, F2, F3, F4, F5, F6][i]) <==> code % 0x80 == 0x3B + i
  {
  }

  lemma VtKeys(key: KeyCode, v: nat)
    ensures VtKey(key) == Some(v) <==> v < 6 && key == [F1, F2, F3, F4, F5, F6][v]
  {
  }

  /** The key a scancode presses: none for a release, a modifier, caps lock or the prefix. */
  function Pressed(ext: bool, code: byte): Option<KeyCode> {
    if code >= 0x80 || IsModifier(Shift, ext, code) || IsModifier(Ctrl, ext, code) || IsModifier(Alt, ext, code)
       || IsCaps(ext, code)
    then None
    else KeyOf(ext, code)
  }

  /** What a scancode gives: a terminal switch for Alt with one of the first six function keys, else Ctrl-C and
      Ctrl-D, else what the key types. */
  lemma DecodedStep(m: Modifiers, code: byte)
    ensures
      var d := Decode(m, code).1;
      match Pressed(m.extended, code)
      case None => d == Nothing
      case Some(key) =>
        var typed := KeycodeToAscii(key, m.shift, m.caps);
        if m.alt && VtKey(key).Some? then d == Vt(VtKey(key).value)
        else if m.ctrl && key == C then d == Typed(CTRL_C)
        else if m.ctrl && key == D then d == Typed(CTRL_D)
        else d == if typed.Some? then Typed(typed.value) else Nothing
  {
    ModifierCodes(m.extended, code);
    var key := KeyOf(m.extended, code);
    if code != 0xE0 && key.Some? {
      DecodeIs(m, code, key.value);
      ModifierKeys(m.(extended := false), key.value, code >= 0x80);
      PressStep(m.(extended := false), key.value, KeycodeToAscii(key.value, m.shift, m.caps), code >= 0x80);
    }
  }

  predicate IsModifierKey(key: KeyCode) {
    || key == LeftShift || key == RightShift || key == LeftCtrl || key == RightCtrl || key == LeftAlt || key == RightAlt
    || key == CapsLock
  }

  lemma ModifierKeys(m: Modifiers, key: KeyCode, release: bool)
    ensures ModifiersAfter(m, key, release).Some? <==> IsModifierKey(key)
  {
  }

  lemma PressStep(m: Modifiers, key: KeyCode, typed: Option<byte>, release: bool)
    ensures
      var d := DecodeKey(m, key, typed, release).1;
      if release || ModifiersAfter(m, key, release).Some? then d == Nothing
      else PressGives(m, VtKey(key), key == C, key == D, typed, d)
  {
    PressIs(m, VtKey(key), key == C, key == D, typed);
  }

  /** What a press gives, by the number of the terminal it may ask for and the byte it may type. */
  predicate PressGives(m: Modifiers, vt: Option<nat>, isC: bool, isD: bool, typed: Option<byte>, d: Decoded) {
    if m.alt && vt.Some? then d == Vt(vt.value)
    else if m.ctrl && isC then d == Typed(CTRL_C)
    else if m.ctrl && isD then d == Typed(CTRL_D)
    else d == if typed.Some? then Typed(typed.value) else Nothing
  }

  lemma PressIs(m: Modifiers, vt: Option<nat>, isC: bool, isD: bool, typed: Option<byte>)
    ensures PressGives(m, vt, isC, isD, typed, Press(m, vt, isC, isD, typed))
  {
  }

  // ---------------------------------------------------------------------------
  // Sequences of scancodes
  // ---------------------------------------------------------------------------

  /** The scancode numbered `i` comes right after the prefix. */
  ghost predicate Extended(codes: seq<Arrival<byte>>, i: nat) {
    0 < i <= |codes| && codes[i - 1].code == 0xE0
  }

  ghost predicate ModifierAt(mod: Modifier, codes: seq<Arrival<byte>>, i: nat) {
    i < |codes| && IsModifier(mod, Extended(codes, i), codes[i].code)
  }

  /** Among the first `n` scancodes, the last one of this modifier is a press. */
  ghost predicate Held(mod: Modifier, codes: seq<Arrival<byte>>, n: nat) {
    exists i: nat ::
      && i < n && ModifierAt(mod, codes, i) && codes[i].code < 0x80
      && forall j: nat :: i < j < n ==> !ModifierAt(mod, codes, j)
  }

  /** Presses of caps lock among the first `n` scancodes. */
  ghost function CapsPresses(codes: seq<Arrival<byte>>, n: nat): nat
    requires n <= |codes|
  {
    if n == 0 then 0
    else
      CapsPresses(codes, n - 1) +
      if IsCaps(Extended(codes, n - 1), codes[n - 1].code) && codes[n - 1].code < 0x80 then 1 else 0
  }

  lemma HeldNext(mod: Modifier, codes: seq<Arrival<byte>>, n: nat)
    requires n < |codes|
    ensures Held(mod, codes, n + 1) <==>
            if ModifierAt(mod, codes, n) then codes[n].code < 0x80 else Held(mod, codes, n)
  {
    if ModifierAt(mod, codes, n) {
      if codes[n].code < 0x80 {
        assert forall j: nat :: n < j < n + 1 ==> !ModifierAt(mod, codes, j);
      }
    } else if Held(mod, codes, n) {
      var i: nat :|
        i < n && ModifierAt(mod, codes, i) && codes[i].code < 0x80 &&
        forall j: nat :: i < j < n ==> !ModifierAt(mod, codes, j);
      assert forall j: nat :: i < j < n + 1 ==> !ModifierAt(mod, codes, j);
    }
  }

  /** From each state to the next the decoder keeps track of the modifiers. */
  ghost predicate TracksAt(codes: seq<Arrival<byte>>, ms: seq<Modifiers>, i: nat, mod: Modifier)
    requires i < |codes| < |ms|
  {
    var m, m', code := ms[i], ms[i + 1], codes[i].code;
    && m'.extended == (code == 0xE0)
    && State(m', mod) == (if IsModifier(mod, m.extended, code) then code < 0x80 else State(m, mod))
    && m'.caps == (m.caps != (IsCaps(m.extended, code) && code < 0x80))
  }

  lemma DecodingTracks(codes: seq<Arrival<byte>>, ms: seq<Modifiers>, ds: seq<Arrival<Decoded>>, i: nat, mod: Modifier)
    requires Decoding(codes, ms, ds) && i < |codes|
    ensures TracksAt(codes, ms, i, mod)
  {
    assert DecodingAt(codes, ms, ds, i);
    ModifiersStep(ms[i], codes[i].code, mod);
  }

  ghost predicate StateFollows(codes: seq<Arrival<byte>>, m: Modifiers, n: nat, mod: Modifier)
    requires n <= |codes|
  {
    && m.extended == Extended(codes, n) && State(m, mod) == Held(mod, codes, n)
    && m.caps == (CapsPresses(codes, n) % 2 == 1)
  }

  lemma {:induction false} TracksFollow(codes: seq<Arrival<byte>>, ms: seq<Modifiers>, n: nat, mod: Modifier)
    requires |ms| == |codes| + 1 && ms[0] == Modifiers(false, false, false, false, false) && n <= |codes|
    requires forall i: nat :: i < |codes| ==> TracksAt(codes, ms, i, mod)
    ensures StateFollows(codes, ms[n], n, mod)
  {
    if n > 0 {
      TracksFollow(codes, ms, n - 1, mod);
      assert TracksAt(codes, ms, n - 1, mod);
      HeldNext(mod, codes, n - 1);
    }
  }

  /** The decoder's state is the history: the prefix is on right after it came, a modifier is held exactly when the
      last of its scancodes was a press, and caps lock is on after an odd number of presses. */
  lemma StateIsHistory(codes: seq<Arrival<byte>>, ms: seq<Modifiers>, ds: seq<Arrival<Decoded>>, n: nat, mod: Modifier)
    requires Decoding(codes, ms, ds) && ms[0] == Modifiers(false, false, false, false, false) && n <= |codes|
    ensures ms[n].extended == Extended(codes, n)
    ensures State(ms[n], mod) == Held(mod, codes, n)
    ensures ms[n].caps == (CapsPresses(codes, n) % 2 == 1)
  {
    forall i: nat | i < |codes|
      ensures TracksAt(codes, ms, i, mod)
    {
      DecodingTracks(codes, ms, ds, i, mod);
    }
    TracksFollow(codes, ms, n, mod);
  }

  /** What each scancode of a sequence types, from the scancodes before it: Alt with one of the first six function
      keys switches terminals; Ctrl with C or D types the control byte; any other key types what the layout says for
      the shift and caps lock of the moment; releases, modifiers and silent keys type nothing. */
  lemma DecodedIsHistory(codes: seq<Arrival<byte>>, ms: seq<Modifiers>, ds: seq<Arrival<Decoded>>, i: nat)
    requires Decoding(codes, ms, ds) && ms[0] == Modifiers(false, false, false, false, false) && i < |codes|
    ensures ds[i].icanon == codes[i].icanon && ds[i].isig == codes[i].isig
    ensures
      var caps := CapsPresses(codes, i) % 2 == 1;
      match Pressed(Extended(codes, i), codes[i].code)
      case None => ds[i].code == Nothing
      case Some(key) =>
        var typed := KeycodeToAscii(key, Held(Shift, codes, i), caps);
        if Held(Alt, codes, i) && VtKey(key).Some? then ds[i].code == Vt(VtKey(key).value)
        else if Held(Ctrl, codes, i) && key == C then ds[i].code == Typed(CTRL_C)
        else if Held(Ctrl, codes, i) && key == D then ds[i].code == Typed(CTRL_D)
        else ds[i].code == if typed.Some? then Typed(typed.value) else Nothing
  {
    StateIsHistory(codes, ms, ds, i, Shift);
    StateIsHistory(codes, ms, ds, i, Ctrl);
    StateIsHistory(codes, ms, ds, i, Alt);
    assert DecodingAt(codes, ms, ds, i);
    DecodedStep(ms[i], codes[i].code);
  }
}
