/** The keyboard tables of kernel/tty/src/ldisc.rs. */
module Keys {
  import opened Prelude

  datatype KeyCode =
    | Escape | Num1 | Num2 | Num3 | Num4 | Num5 | Num6 | Num7 | Num8 | Num9 | Num0 | Minus | Equals
    | Backspace | Tab | Q | W | E | R | T | Y | U | I | O | P | LeftBracket | RightBracket | Enter
    | LeftCtrl | A | S | D | F | G | H | J | K | L | Semicolon | Apostrophe | Grave | LeftShift | Backslash
    | Z | X | C | V | B | N | M | Comma | Period | Slash | RightShift | LeftAlt | Space | CapsLock | F1 | F2
    | F3 | F4 | F5 | F6 | F7 | F8 | F9 | F10 | F11 | F12 | RightCtrl | RightAlt | Home | ArrowUp | PageUp
    | ArrowLeft | ArrowRight | End | ArrowDown | PageDown | Insert | Delete

  /** Set 1 scancodes; bit 7 marks a release. */
  function ScancodeToKeycode(scancode: byte): Option<KeyCode> {
    match scancode % 0x80
    case 0x01 => Some(Escape)
    case 0x02 => Some(Num1)
    case 0x03 => Some(Num2)
    case 0x04 => Some(Num3)
    case 0x05 => Some(Num4)
    case 0x06 => Some(Num5)
    case 0x07 => Some(Num6)
    case 0x08 => Some(Num7)
    case 0x09 => Some(Num8)
    case 0x0A => Some(Num9)
    case 0x0B => Some(Num0)
    case 0x0C => Some(Minus)
    case 0x0D => Some(Equals)
    case 0x0E => Some(Backspace)
    case 0x0F => Some(Tab)
    case 0x10 => Some(Q)
    case 0x11 => Some(W)
    case 0x12 => Some(E)
    case 0x13 => Some(R)
    case 0x14 => Some(T)
    case 0x15 => Some(Y)
    case 0x16 => Some(U)
    case 0x17 => Some(I)
    case 0x18 => Some(O)
    case 0x19 => Some(P)
    case 0x1A => Some(LeftBracket)
    case 0x1B => Some(RightBracket)
    case 0x1C => Some(Enter)
    case 0x1D => Some(LeftCtrl)
    case 0x1E => Some(A)
    case 0x1F => Some(S)
    case 0x20 => Some(D)
    case 0x21 => Some(F)
    case 0x22 => Some(G)
    case 0x23 => Some(H)
    case 0x24 => Some(J)
    case 0x25 => Some(K)
    case 0x26 => Some(L)
    case 0x27 => Some(Semicolon)
    case 0x28 => Some(Apostrophe)
    case 0x29 => Some(Grave)
    case 0x2A => Some(LeftShift)
    case 0x2B => Some(Backslash)
    case 0x2C => Some(Z)
    case 0x2D => Some(X)
    case 0x2E => Some(C)
    case 0x2F => Some(V)
    case 0x30 => Some(B)
    case 0x31 => Some(N)
    case 0x32 => Some(M)
    case 0x33 => Some(Comma)
    case 0x34 => Some(Period)
    case 0x35 => Some(Slash)
    case 0x36 => Some(RightShift)
    case 0x38 => Some(LeftAlt)
    case 0x39 => Some(Space)
    case 0x3A => Some(CapsLock)
    case 0x3B => Some(F1)
    case 0x3C => Some(F2)
    case 0x3D => Some(F3)
    case 0x3E => Some(F4)
    case 0x3F => Some(F5)
    case 0x40 => Some(F6)
    case 0x41 => Some(F7)
    case 0x42 => Some(F8)
    case 0x43 => Some(F9)
    case 0x44 => Some(F10)
    case 0x57 => Some(F11)
    case 0x58 => Some(F12)
    case _ => None
  }

  /** Scancodes after the 0xE0 prefix. */
  function ExtendedScancodeToKeycode(scancode: byte): Option<KeyCode> {
    match scancode % 0x80
    case 0x1D => Some(RightCtrl)
    case 0x38 => Some(RightAlt)
    case 0x47 => Some(Home)
    case 0x48 => Some(ArrowUp)
    case 0x49 => Some(PageUp)
    case 0x4B => Some(ArrowLeft)
    case 0x4D => Some(ArrowRight)
    case 0x4F => Some(End)
    case 0x50 => Some(ArrowDown)
    case 0x51 => Some(PageDown)
    case 0x52 => Some(Insert)
    case 0x53 => Some(Delete)
    case _ => None
  }

  predicate IsTyped(b: byte) {
    32 <= b <= 126 || b == 8 || b == 9 || b == 10
  }

  /** The ASCII byte a key types; caps lock inverts shift for letters. No key types a control byte other than
      backspace, tab and newline. */
  function KeycodeToAscii(key: KeyCode, shifted: bool, caps: bool): (r: Option<byte>)
    ensures r.Some? ==> IsTyped(r.value)
  {
    match key
    case A => Some(if shifted != caps then 65 else 97)
    case B => Some(if shifted != caps then 66 else 98)
    case C => Some(if shifted != caps then 67 else 99)
    case D => Some(if shifted != caps then 68 else 100)
    case E => Some(if shifted != caps then 69 else 101)
    case F => Some(if shifted != caps then 70 else 102)
    case G => Some(if shifted != caps then 71 else 103)
    case H => Some(if shifted != caps then 72 else 104)
    case I => Some(if shifted != caps then 73 else 105)
    case J => Some(if shifted != caps then 74 else 106)
    case K => Some(if shifted != caps then 75 else 107)
    case L => Some(if shifted != caps then 76 else 108)
    case M => Some(if shifted != caps then 77 else 109)
    case N => Some(if shifted != caps then 78 else 110)
    case O => Some(if shifted != caps then 79 else 111)
    case P => Some(if shifted != caps then 80 else 112)
    case Q => Some(if shifted != caps then 81 else 113)
    case R => Some(if shifted != caps then 82 else 114)
    case S => Some(if shifted != caps then 83 else 115)
    case T => Some(if shifted != caps then 84 else 116)
    case U => Some(if shifted != caps then 85 else 117)
    case V => Some(if shifted != caps then 86 else 118)
    case W => Some(if shifted != caps then 87 else 119)
    case X => Some(if shifted != caps then 88 else 120)
    case Y => Some(if shifted != caps then 89 else 121)
    case Z => Some(if shifted != caps then 90 else 122)
    case Num1 => Some(if shifted then 33 else 49)
    case Num2 => Some(if shifted then 64 else 50)
    case Num3 => Some(if shifted then 35 else 51)
    case Num4 => Some(if shifted then 36 else 52)
    case Num5 => Some(if shifted then 37 else 53)
    case Num6 => Some(if shifted then 94 else 54)
    case Num7 => Some(if shifted then 38 else 55)
    case Num8 => Some(if shifted then 42 else 56)
    case Num9 => Some(if shifted then 40 else 57)
    case Num0 => Some(if shifted then 41 else 48)
    case Minus => Some(if shifted then 95 else 45)
    case Equals => Some(if shifted then 43 else 61)
    case LeftBracket => Some(if shifted then 123 else 91)
    case RightBracket => Some(if shifted then 125 else 93)
    case Backslash => Some(if shifted then 124 else 92)
    case Semicolon => Some(if shifted then 58 else 59)
    case Apostrophe => Some(if shifted then 34 else 39)
    case Grave => Some(if shifted then 126 else 96)
    case Comma => Some(if shifted then 60 else 44)
    case Period => Some(if shifted then 62 else 46)
    case Slash => Some(if shifted then 63 else 47)
    case Space => Some(32)
    case Enter => Some(10)
    case Backspace => Some(8)
    case Tab => Some(9)
    case _ => None
  }
}

/** The line discipline of kernel/tty/src/ldisc.rs. */
module LineDiscipline {
  import opened Prelude
  import opened Keys

  const LINE_BUF_SIZE := 256
  const READY_CAPACITY := 511

  const CTRL_C: byte := 0x03
  const CTRL_D: byte := 0x04
  const BS: byte := 0x08
  const LF: byte := 0x0A
  const CR: byte := 0x0D
  const DEL: byte := 0x7F

  datatype Action = EraseChar | Newline | Echo(ch: byte) | Interrupt | Eof | FlushLine | SwitchVt(index: nat)

  datatype Modifiers = Modifiers(shift: bool, ctrl: bool, alt: bool, caps: bool, extended: bool)

  /** What the line discipline holds besides the modifiers. */
  datatype Buffers = Buffers(ready: seq<byte>, line: seq<byte>, eof: bool)

  // ---------------------------------------------------------------------------
  // Specification
  // ---------------------------------------------------------------------------

  /** Pushes to the ready buffer until it is full; the rest is dropped. */
  function Push(ready: seq<byte>, bytes: seq<byte>): (r: seq<byte>)
  {
    if |ready| + |bytes| <= READY_CAPACITY then ready + bytes
    else if |ready| >= READY_CAPACITY then ready
    else ready + bytes[..READY_CAPACITY - |ready|]
  }

  lemma PushTwice(ready: seq<byte>, a: seq<byte>, b: seq<byte>)
    ensures Push(Push(ready, a), b) == Push(ready, a + b)
  {
    if |ready| + |a| + |b| <= READY_CAPACITY {
      assert ready + a + b == ready + (a + b);
    } else if |ready| + |a| <= READY_CAPACITY {
      var room := READY_CAPACITY - |ready|;
      assert (a + b)[..room] == a + b[..room - |a|];
      assert ready + a + b[..room - |a|] == ready + (a + b[..room - |a|]);
    } else if |ready| < READY_CAPACITY {
      var room := READY_CAPACITY - |ready|;
      assert (a + b)[..room] == a[..room];
    }
  }

  /** One input byte: signals, end of file, line editing. */
  function AsciiStep(s: Buffers, b: byte, icanon: bool, isig: bool): (Buffers, Option<Action>) {
    if b == CTRL_C && isig then (s.(line := []), Some(Interrupt))
    else if b == CTRL_D && icanon then
      if s.line == [] then (s.(eof := true), Some(Eof))
      else (s.(ready := Push(s.ready, s.line), line := []), Some(FlushLine))
    else if !icanon || b == CTRL_C then (s.(ready := Push(s.ready, [b])), Some(Echo(b)))
    else if b == BS || b == DEL then
      if s.line == [] then (s, None) else (s.(line := s.line[..|s.line| - 1]), Some(EraseChar))
    else if b == LF || b == CR then (s.(ready := Push(s.ready, s.line + [LF]), line := []), Some(Newline))
    else if |s.line| < LINE_BUF_SIZE then (s.(line := s.line + [b]), Some(Echo(b)))
    else (s, None)
  }

  /** What a scancode amounts to. */
  datatype Decoded = Nothing | Typed(b: byte) | Vt(index: nat)

  function ModifiersAfter(m: Modifiers, key: KeyCode, release: bool): Option<Modifiers> {
    if key == LeftShift || key == RightShift then Some(m.(shift := !release))
    else if key == LeftCtrl || key == RightCtrl then Some(m.(ctrl := !release))
    else if key == LeftAlt || key == RightAlt then Some(m.(alt := !release))
    else if key == CapsLock then Some(m.(caps := m.caps != !release))
    else None
  }

  /** Alt with a function key asks for a virtual terminal. */
  function VtKey(key: KeyCode): Option<nat> {
    if key == F1 then Some(0)
    else if key == F2 then Some(1)
    else if key == F3 then Some(2)
    else if key == F4 then Some(3)
    else if key == F5 then Some(4)
    else if key == F6 then Some(5)
    else None
  }

  /** The byte a pressed key stands for, given the character it types. */
  function KeyByte(ctrl: bool, isC: bool, isD: bool, typed: Option<byte>): Option<byte> {
    if ctrl && isC then Some(CTRL_C) else if ctrl && isD then Some(CTRL_D) else typed
  }

  /** What a pressed key that is not a modifier amounts to. */
  function Press(m: Modifiers, vt: Option<nat>, isC: bool, isD: bool, typed: Option<byte>): Decoded {
    if m.alt && vt.Some? then Vt(vt.value)
    else
      match KeyByte(m.ctrl, isC, isD, typed)
      case None => Nothing
      case Some(b) => Typed(b)
  }

  function DecodeKey(m: Modifiers, key: KeyCode, typed: Option<byte>, release: bool): (Modifiers, Decoded) {
    match ModifiersAfter(m, key, release)
    case Some(m') => (m', Nothing)
    case None => (m, if release then Nothing else Press(m, VtKey(key), key == C, key == D, typed))
  }

  /** The modifier-tracking decoder. */
  function Decode(m: Modifiers, scancode: byte): (Modifiers, Decoded) {
    if scancode == 0xE0 then (m.(extended := true), Nothing)
    else
      var m' := m.(extended := false);
      match (if m.extended then ExtendedScancodeToKeycode(scancode) else ScancodeToKeycode(scancode))
      case None => (m', Nothing)
      case Some(key) => DecodeKey(m', key, KeycodeToAscii(key, m.shift, m.caps), scancode >= 0x80)
  }

  /** A decoded scancode handed to the byte path. */
  function Deliver(s: Buffers, d: Decoded, icanon: bool, isig: bool): (Buffers, Option<Action>) {
    match d
    case Nothing => (s, None)
    case Vt(i) => (s, Some(SwitchVt(i)))
    case Typed(b) => AsciiStep(s, b, icanon, isig)
  }

  // ---------------------------------------------------------------------------
  // The two input paths
  // ---------------------------------------------------------------------------

  class LineDiscipline {
    var readyBuf: seq<byte>
    const lineBuf: array<byte>
    var lineLen: nat
    var shiftHeld: bool
    var ctrlHeld: bool
    var altHeld: bool
    var capsLock: bool
    var extendedPrefix: bool
    var eofPending: bool

    ghost predicate Valid()
      reads this
    {
      lineBuf.Length == LINE_BUF_SIZE && lineLen <= LINE_BUF_SIZE && |readyBuf| <= READY_CAPACITY
    }

    ghost function View(): (s: Buffers)
      requires Valid()
      reads this, lineBuf
    {
      Buffers(readyBuf, lineBuf[..lineLen], eofPending)
    }

    function Mods(): Modifiers
      reads this
    {
      Modifiers(shiftHeld, ctrlHeld, altHeld, capsLock, extendedPrefix)
    }

    constructor ()
      ensures Valid() && fresh(lineBuf)
      ensures View() == Buffers([], [], false) && Mods() == Modifiers(false, false, false, false, false)
    {
      readyBuf, lineLen, eofPending := [], 0, false;
      shiftHeld, ctrlHeld, altHeld, capsLock, extendedPrefix := false, false, false, false, false;
      lineBuf := new byte[LINE_BUF_SIZE](_ => 0);
    }

    /** `RingBuf::try_push`, whose refusal is ignored. */
    method TryPush(b: byte)
      requires Valid()
      modifies this`readyBuf
      ensures Valid() && readyBuf == Push(old(readyBuf), [b])
    {
      if |readyBuf| < READY_CAPACITY {
        readyBuf := readyBuf + [b];
      }
    }

    /** Pushes the line byte by byte. */
    method PushLine()
      requires Valid()
      modifies this`readyBuf
      ensures Valid() && readyBuf == Push(old(readyBuf), lineBuf[..lineLen])
    {
      var i := 0;
      assert readyBuf == Push(readyBuf, lineBuf[..0]);
      while i < lineLen
        invariant 0 <= i <= lineLen && Valid() && readyBuf == Push(old(readyBuf), lineBuf[..i])
      {
        PushTwice(old(readyBuf), lineBuf[..i], [lineBuf[i]]);
        assert lineBuf[..i + 1] == lineBuf[..i] + [lineBuf[i]];
        TryPush(lineBuf[i]);
        i := i + 1;
      }
    }

    method ProcessAsciiByte(b: byte, icanon: bool, isig: bool) returns (r: Option<Action>)
      requires Valid()
      modifies this`readyBuf, this`lineLen, this`eofPending, lineBuf
      ensures Valid() && (View(), r) == AsciiStep(old(View()), b, icanon, isig)
    {
      if b == CTRL_C {
        if isig {
          lineLen := 0;
          return Some(Interrupt);
        }
        TryPush(CTRL_C);
        return Some(Echo(CTRL_C));
      }
      if b == CTRL_D {
        if icanon {
          if lineLen == 0 {
            eofPending := true;
            return Some(Eof);
          }
          PushLine();
          lineLen := 0;
          return Some(FlushLine);
        }
        TryPush(CTRL_D);
        return Some(Echo(CTRL_D));
      }
      if icanon {
        if b == BS || b == DEL {
          if lineLen > 0 {
            assert lineBuf[..lineLen - 1] == lineBuf[..lineLen][..lineLen - 1];
            lineLen := lineLen - 1;
            return Some(EraseChar);
          }
          return None;
        }
        if b == LF || b == CR {
          PushTwice(readyBuf, lineBuf[..lineLen], [LF]);
          PushLine();
          TryPush(LF);
          lineLen := 0;
          return Some(Newline);
        }
        if lineLen < LINE_BUF_SIZE {
          lineBuf[lineLen] := b;
          lineLen := lineLen + 1;
          assert lineBuf[..lineLen] == old(lineBuf[..lineLen]) + [b];
          return Some(Echo(b));
        }
        return None;
      }
      TryPush(b);
      return Some(Echo(b));
    }

    /** The buffer half of `process_scancode`, after the modifiers and the VT switch. */
    method ProcessKey(isC: bool, isD: bool, typed: Option<byte>, icanon: bool, isig: bool) returns (r: Option<Action>)
      requires Valid() && (typed.Some? ==> IsTyped(typed.value))
      modifies this`readyBuf, this`lineLen, this`eofPending, lineBuf
      ensures Valid()
      ensures match KeyByte(ctrlHeld, isC, isD, typed)
              case None => r == None && View() == old(View())
              case Some(b) => (View(), r) == AsciiStep(old(View()), b, icanon, isig)
    {
      if ctrlHeld && isC {
        if isig {
          lineLen := 0;
          return Some(Interrupt);
        }
        TryPush(CTRL_C);
        return Some(Echo(CTRL_C));
      }
      if ctrlHeld && isD {
        if icanon {
          if lineLen == 0 {
            eofPending := true;
            return Some(Eof);
          }
          PushLine();
          lineLen := 0;
          return Some(FlushLine);
        }
        TryPush(CTRL_D);
        return Some(Echo(CTRL_D));
      }
      if typed.Some? {
        r := EditLine(typed.value, icanon);
        return;
      }
      return None;
    }

    /** The last part of `process_scancode`: a typed character. */
    method EditLine(ch: byte, icanon: bool) returns (r: Option<Action>)
      requires Valid() && IsTyped(ch)
      modifies this`readyBuf, this`lineLen, lineBuf
      ensures Valid() && forall isig :: (View(), r) == AsciiStep(old(View()), ch, icanon, isig)
    {
      if icanon {
        if ch == BS {
          if lineLen > 0 {
            assert lineBuf[..lineLen - 1] == lineBuf[..lineLen][..lineLen - 1];
            lineLen := lineLen - 1;
            return Some(EraseChar);
          }
        } else if ch == LF {
          PushTwice(readyBuf, lineBuf[..lineLen], [LF]);
          PushLine();
          TryPush(LF);
          lineLen := 0;
          return Some(Newline);
        } else if lineLen < LINE_BUF_SIZE {
          lineBuf[lineLen] := ch;
          lineLen := lineLen + 1;
          assert lineBuf[..lineLen] == old(lineBuf[..lineLen]) + [ch];
          return Some(Echo(ch));
        }
      } else {
        TryPush(ch);
        return Some(Echo(ch));
      }
      return None;
    }

    /** `process_scancode` once the key is known. */
    method ProcessKeycode(key: KeyCode, typed: Option<byte>, isRelease: bool, icanon: bool, isig: bool)
      returns (r: Option<Action>)
      requires Valid() && (typed.Some? ==> IsTyped(typed.value))
      modifies this, lineBuf
      ensures Valid()
      ensures var (m, d) := DecodeKey(old(Mods()), key, typed, isRelease);
              Mods() == m && (View(), r) == Deliver(old(View()), d, icanon, isig)
    {
      var handled := TrackModifiers(key, isRelease);
      if handled || isRelease {
        return None;
      }
      r := PressKey(VtKey(key), key == C, key == D, typed, icanon, isig);
    }

    method PressKey(vt: Option<nat>, isC: bool, isD: bool, typed: Option<byte>, icanon: bool, isig: bool)
      returns (r: Option<Action>)
      requires Valid() && (typed.Some? ==> IsTyped(typed.value))
      modifies this`readyBuf, this`lineLen, this`eofPending, lineBuf
      ensures Valid() && (View(), r) == Deliver(old(View()), Press(Mods(), vt, isC, isD, typed), icanon, isig)
    {
      if altHeld && vt.Some? {
        return Some(SwitchVt(vt.value));
      }
      r := ProcessKey(isC, isD, typed, icanon, isig);
    }

    method TrackModifiers(key: KeyCode, isRelease: bool) returns (handled: bool)
      modifies this`shiftHeld, this`ctrlHeld, this`altHeld, this`capsLock
      ensures match ModifiersAfter(old(Mods()), key, isRelease)
              case None => !handled && Mods() == old(Mods())
              case Some(m) => handled && Mods() == m
    {
      handled := true;
      if key == LeftShift || key == RightShift {
        shiftHeld := !isRelease;
      } else if key == LeftCtrl || key == RightCtrl {
        ctrlHeld := !isRelease;
      } else if key == LeftAlt || key == RightAlt {
        altHeld := !isRelease;
      } else if key == CapsLock {
        if !isRelease {
          capsLock := !capsLock;
        }
      } else {
        handled := false;
      }
    }

    /** A raw scancode has exactly the effect of decoding it and handing the byte to the byte path. */
    method ProcessScancode(scancode: byte, icanon: bool, isig: bool) returns (r: Option<Action>)
      requires Valid()
      modifies this, lineBuf
      ensures Valid()
      ensures var (m, d) := Decode(old(Mods()), scancode);
              Mods() == m && (View(), r) == Deliver(old(View()), d, icanon, isig)
    {
      if scancode == 0xE0 {
        extendedPrefix := true;
        return None;
      }
      var isRelease := scancode / 0x80 != 0;
      var keycode;
      if extendedPrefix {
        extendedPrefix := false;
        keycode := ExtendedScancodeToKeycode(scancode);
      } else {
        keycode := ScancodeToKeycode(scancode);
      }
      if keycode == None {
        return None;
      }
      var typed := KeycodeToAscii(keycode.value, shiftHeld, capsLock);
      r := ProcessKeycode(keycode.value, typed, isRelease, icanon, isig);
    }

    /** `try_read`: a pending end of file first, then ready bytes. */
    method TryRead(buf: array<byte>) returns (r: Option<nat>)
      requires Valid() && buf != lineBuf
      modifies this`readyBuf, this`eofPending, buf
      ensures Valid() && lineBuf[..lineLen] == old(View()).line
      ensures var (s, bytes) := ReadStep(old(View()), buf.Length);
              && View() == s
              && (bytes == None <==> r == None)
              && (r.Some? ==> r.value == |bytes.value| && buf[..] == bytes.value + old(buf[..])[r.value..])
              && (r == None ==> buf[..] == old(buf[..]))
    {
      if eofPending {
        eofPending := false;
        assert buf[..] == [] + buf[..][0..];
        return Some(0);
      }
      var n := 0;
      while n < buf.Length && readyBuf != []
        invariant 0 <= n <= buf.Length && n <= |old(readyBuf)| && readyBuf == old(readyBuf)[n..]
        invariant buf[..n] == old(readyBuf)[..n] && buf[n..] == old(buf[n..]) && !eofPending
        decreases buf.Length - n
      {
        buf[n] := readyBuf[0];
        readyBuf := readyBuf[1..];
        n := n + 1;
        assert buf[n..] == old(buf[n..]);
      }
      assert buf[..] == buf[..n] + buf[n..];
      return if n > 0 then Some(n) else None;
    }
  }

  /** A read of up to `n` bytes. */
  function ReadStep(s: Buffers, n: nat): (Buffers, Option<seq<byte>>) {
    if s.eof then (s.(eof := false), Some([]))
    else
      var k := Min(n, |s.ready|);
      (s.(ready := s.ready[k..]), if k > 0 then Some(s.ready[..k]) else None)
  }

  // ---------------------------------------------------------------------------
  // Sequences of scancodes
  // ---------------------------------------------------------------------------

  /** A scancode or byte with the terminal modes in force when it arrives. */
  datatype Arrival<T> = Arrival(code: T, icanon: bool, isig: bool)

  /** The decoder, in state `m`, turns the scancode into `d` and goes to state `m'`. */
  ghost predicate DecodesTo(m: Modifiers, a: Arrival<byte>, m': Modifiers, d: Arrival<Decoded>) {
    (m', d.code) == Decode(m, a.code) && d.icanon == a.icanon && d.isig == a.isig
  }

  /** The decoder alone over a whole sequence: its states, one more than the scancodes, and its output. */
  ghost predicate Decoding(codes: seq<Arrival<byte>>, ms: seq<Modifiers>, ds: seq<Arrival<Decoded>>) {
    |ms| == |codes| + 1 && |ds| == |codes| && forall i :: 0 <= i < |codes| ==> DecodingAt(codes, ms, ds, i)
  }

  ghost predicate DecodingAt(codes: seq<Arrival<byte>>, ms: seq<Modifiers>, ds: seq<Arrival<Decoded>>, i: nat)
    requires i < |codes| == |ds| && |ms| == |codes| + 1
  {
    DecodesTo(ms[i], codes[i], ms[i + 1], ds[i])
  }

  /** The bytes one decoded scancode types: one or none. */
  function Typing(d: Arrival<Decoded>): seq<Arrival<byte>> {
    if d.code.Typed? then [Arrival(d.code.b, d.icanon, d.isig)] else []
  }

  /** The bytes among decoded scancodes. */
  ghost function BytesOf(ds: seq<Arrival<Decoded>>): seq<Arrival<byte>> {
    if ds == [] then [] else BytesOf(ds[..|ds| - 1]) + Typing(ds[|ds| - 1])
  }

  lemma DecodingSnoc(codes: seq<Arrival<byte>>, ms: seq<Modifiers>, ds: seq<Arrival<Decoded>>,
                     a: Arrival<byte>, m': Modifiers, d: Arrival<Decoded>)
    requires Decoding(codes, ms, ds) && DecodesTo(ms[|codes|], a, m', d)
    ensures Decoding(codes + [a], ms + [m'], ds + [d])
    ensures BytesOf(ds + [d]) == BytesOf(ds) + Typing(d)
  {
    var n, codes', ms', ds' := |codes|, codes + [a], ms + [m'], ds + [d];
    forall i | 0 <= i < n + 1
      ensures DecodingAt(codes', ms', ds', i)
    {
      assert i < n ==> DecodingAt(codes, ms, ds, i);
    }
    assert ds'[..n] == ds;
  }

  /** One scancode to the keyboard terminal, and what it types to the other. */
  method FeedBoth(k: LineDiscipline, t: LineDiscipline, a: Arrival<byte>)
    returns (byKey: Option<Action>, byByte: Option<Action>, d: Arrival<Decoded>)
    requires k != t && k.lineBuf != t.lineBuf && k.Valid() && t.Valid() && k.View() == t.View()
    modifies k, k.lineBuf, t, t.lineBuf
    ensures k.Valid() && t.Valid() && k.View() == t.View() && byKey == byByte
    ensures DecodesTo(old(k.Mods()), a, k.Mods(), d)
  {
    var decoded := Decode(k.Mods(), a.code).1;
    d := Arrival(decoded, a.icanon, a.isig);
    byKey := k.ProcessScancode(a.code, a.icanon, a.isig);
    match decoded {
      case Nothing => byByte := None;
      case Vt(index) => byByte := Some(SwitchVt(index));
      case Typed(b) => byByte := t.ProcessAsciiByte(b, a.icanon, a.isig);
    }
  }

  /** For every scancode sequence and every change of modes: a keyboard terminal fed the scancodes and a second
      terminal fed the bytes a modifier-tracking decoder makes of them, through the byte path, from equal buffers,
      end with equal buffers after the same actions. Scancodes that type no byte do nothing but switch terminals. */
  method PathsAgree(k: LineDiscipline, t: LineDiscipline, codes: seq<Arrival<byte>>)
    returns (keyed: seq<Option<Action>>, typed: seq<Option<Action>>, fed: seq<Arrival<byte>>,
             ghost ms: seq<Modifiers>, ghost ds: seq<Arrival<Decoded>>)
    requires k != t && k.lineBuf != t.lineBuf && k.Valid() && t.Valid() && k.View() == t.View()
    modifies k, k.lineBuf, t, t.lineBuf
    ensures k.Valid() && t.Valid() && k.View() == t.View() && keyed == typed && |keyed| == |codes|
    ensures Decoding(codes, ms, ds) && ms[0] == old(k.Mods()) && ms[|codes|] == k.Mods() && fed == BytesOf(ds)
  {
    keyed, typed, fed, ms, ds := [], [], [], [k.Mods()], [];
    for i := 0 to |codes|
      invariant k.Valid() && t.Valid() && k.View() == t.View() && keyed == typed && |keyed| == i
      invariant Decoding(codes[..i], ms, ds) && ms[0] == old(k.Mods()) && ms[i] == k.Mods() && fed == BytesOf(ds)
    {
      var byKey, byByte, d := FeedBoth(k, t, codes[i]);
      DecodingSnoc(codes[..i], ms, ds, codes[i], k.Mods(), d);
      assert codes[..i + 1] == codes[..i] + [codes[i]];
      keyed, typed, fed := keyed + [byKey], typed + [byByte], fed + Typing(d);
      ms, ds := ms + [k.Mods()], ds + [d];
    }
    assert codes[..|codes|] == codes;
  }
}
