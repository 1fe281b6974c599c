/** What a VNC tab holds down on the far side (src/app_vnc.cpp, with the command queue of src/vnc/VncSession.cpp).
  *
  * The window's handlers record keys and buttons and queue commands. Connections come and go under them, and they hear
  * of it only when they take the event the worker posted. The worker empties the queue on every turn, but until the
  * handshake is over its client throws the commands away: only those of the last handshake turn, and later ones, are
  * sent. A server lets go of everything when a connection ends, so what it holds is decided by what it was sent on this
  * one.
  */
module HeldInput {
  import opened Wrappers

  type Keysym = nat

  /** The first half of a surrogate pair, or zero. */
  type HighSurrogate = h: nat | h == 0 || 0xD800 <= h <= 0xDBFF

  datatype Button = Left | Middle | Right | WheelUp | WheelDown

  datatype Command =
    | Key(down: bool, ks: Keysym)
    | Pointer(mask: set<Button>, x: nat, y: nat)
    | CutText
    | Refresh
    | Resize

  /** Down until a turn of the handshake is over, Shaking from there to the connection being up. */
  datatype Link = Down | Shaking | Up

  datatype Posted = ConnectedEvent | ClosedEvent | OtherEvent

  /** `last` is where the pointer was last sent, none where the program keeps minus one; `wire` is what this connection
    * has been sent, and is over when the connection is. */
  datatype Tab = Tab(held: seq<Keysym>, buttons: set<Button>, last: Option<(nat, nat)>, pointerInside: bool,
                     highSurrogate: HighSurrogate, viewOnly: bool, link: Link, alive: bool, queue: seq<Command>,
                     wire: seq<Command>, posted: seq<Posted>)

  /** A point of the window on the framebuffer, clamped to it; none before the picture has a place. */
  datatype Point = Point(inside: bool, x: nat, y: nat)

  datatype Event =
    // the window
    | KeyEvent(vk: nat, down: bool, ctrl: bool, shift: bool, right: bool)
    | CharEvent(wc: nat, ctrl: bool)
    | ButtonEvent(down: bool, button: Button, overTitle: bool, point: Option<Point>)
    | MoveEvent(overTitle: bool, at: Option<Point>)
    | WheelEvent(up: bool, notches: nat)
    | ReleaseAllEvent
    | ViewOnlyToggle
    | CtrlAltDel
    | SendClipboard(cut: bool, typeIt: bool)     // a paste its guard let through
    | RequestRefresh
    | TakePosted(resize: bool)                   // the next event the worker posted
    | TunnelClosed
    // the worker
    | HandshakeTurn
    | LinkUp
    | LinkDown
    | Deliver
    | WorkerEnds(failed: bool)

  function Init(viewOnly: bool): Tab {
    Tab([], {}, None, false, 0, viewOnly, Down, true, [], [], [])
  }

  // ---- keysyms --------------------------------------------------------------------------------------------------

  const VK_SHIFT := 0x10
  const VK_CONTROL := 0x11
  const VK_MENU := 0x12
  const VK_LWIN := 0x5B
  const VK_RWIN := 0x5C
  const VK_V := 0x56
  const CONTROL_L: Keysym := 0xFFE3
  const ALT_L: Keysym := 0xFFE9
  const DELETE: Keysym := 0xFFFF

  /** The keysym of a key that types nothing; zero for one that does. */
  function KeysymFromVirtualKey(vk: nat, right: bool): (ks: Keysym)
    ensures ks == 0 || 0xFF00 <= ks <= 0xFFFF
  {
    match vk
    case 0x08 => 0xFF08
    case 0x09 => 0xFF09
    case 0x0D => 0xFF0D
    case 0x10 => if right then 0xFFE2 else 0xFFE1
    case 0x11 => if right then 0xFFE4 else 0xFFE3
    case 0x12 => if right then 0xFFEA else 0xFFE9
    case 0x13 => 0xFF13
    case 0x14 => 0xFFE5
    case 0x1B => 0xFF1B
    case 0x21 => 0xFF55
    case 0x22 => 0xFF56
    case 0x23 => 0xFF57
    case 0x24 => 0xFF50
    case 0x25 => 0xFF51
    case 0x26 => 0xFF52
    case 0x27 => 0xFF53
    case 0x28 => 0xFF54
    case 0x2C => 0xFF61
    case 0x2D => 0xFF63
    case 0x2E => 0xFFFF
    case 0x5B => 0xFFEB
    case 0x5C => 0xFFEC
    case 0x5D => 0xFF67
    case 0x90 => 0xFF7F
    case 0x91 => 0xFF14
    case 0xA0 => 0xFFE1
    case 0xA1 => 0xFFE2
    case 0xA2 => 0xFFE3
    case 0xA3 => 0xFFE4
    case 0xA4 => 0xFFE9
    case 0xA5 => 0xFFEA
    case _ => if 0x70 <= vk <= 0x87 then 0xFFBE + (vk - 0x70) else 0
  }

  /** Keys that type nothing are told apart over there, but for the two names each of Shift, Control and Alt has
    * here. */
  lemma KeysAreToldApart(vk: nat, right: bool, vk': nat, right': bool)
    requires KeysymFromVirtualKey(vk, right) == KeysymFromVirtualKey(vk', right') != 0
    requires vk !in {VK_SHIFT, VK_CONTROL, VK_MENU} && vk' !in {VK_SHIFT, VK_CONTROL, VK_MENU}
    ensures vk == vk'
  {}

  /** The keys of Ctrl+Alt+Del go by the names they have when they are pressed by hand. */
  lemma AttentionKeys()
    ensures KeysymFromVirtualKey(VK_CONTROL, false) == CONTROL_L && KeysymFromVirtualKey(VK_MENU, false) == ALT_L
    ensures KeysymFromVirtualKey(0x2E, false) == DELETE
  {}

  /** Text goes as its code point, outside the range of the keys that type nothing. */
  function KeysymFromCodePoint(cp: nat): (ks: Keysym)
    ensures !(0xFF00 <= ks <= 0xFFFF)
  {
    if cp < 0x100 then cp else 0x0100_0000 + cp
  }

  // ---- the queue ------------------------------------------------------------------------------------------------

  function SendKey(s: Tab, down: bool, ks: Keysym): Tab {
    if s.viewOnly then s else s.(queue := s.queue + [Key(down, ks)])
  }

  /** A pointer command replaces one at the back with the same buttons: only its newest position matters. */
  function PushPointer(q: seq<Command>, mask: set<Button>, x: nat, y: nat): seq<Command> {
    if q != [] && q[|q| - 1].Pointer? && q[|q| - 1].mask == mask then q[..|q| - 1] + [Pointer(mask, x, y)]
    else q + [Pointer(mask, x, y)]
  }

  function SendPointer(s: Tab, mask: set<Button>, x: nat, y: nat): Tab {
    if s.viewOnly then s else s.(queue := PushPointer(s.queue, mask, x, y))
  }

  function WithoutResizes(q: seq<Command>): seq<Command> {
    if q == [] then [] else WithoutResizes(q[..|q| - 1]) + (if q[|q| - 1].Resize? then [] else [q[|q| - 1]])
  }

  function RequestSize(s: Tab): Tab {
    s.(queue := WithoutResizes(s.queue) + [Resize])
  }

  // ---- the handlers ---------------------------------------------------------------------------------------------

  predicate InputAllowed(s: Tab) {
    !s.viewOnly && s.link == Up
  }

  function Without(held: seq<Keysym>, ks: Keysym): seq<Keysym> {
    if held == [] then [] else (if held[0] == ks then [] else [held[0]]) + Without(held[1..], ks)
  }

  function OnKey(s: Tab, vk: nat, down: bool, ctrl: bool, shift: bool, right: bool): Tab {
    var ks := KeysymFromVirtualKey(vk, right);
    if (ctrl && shift) || vk == VK_LWIN || vk == VK_RWIN || !InputAllowed(s) then s
    else if ctrl && vk == VK_V then s
    else if ks == 0 then s
    else if down then SendKey(s, true, ks).(held := if ks in s.held then s.held else s.held + [ks])
    else SendKey(s, false, ks).(held := Without(s.held, ks))
  }

  /** A press and its release. */
  function Tap(s: Tab, ks: Keysym): Tab {
    SendKey(SendKey(s, true, ks), false, ks)
  }

  /** The code point of a character message, and the surrogate it leaves waiting; none when it is not text. */
  function Assembled(high: HighSurrogate, wc: nat, ctrl: bool): (Option<nat>, HighSurrogate) {
    if 0xD800 <= wc <= 0xDBFF then (None, wc)
    else if 0xDC00 <= wc <= 0xDFFF && high == 0 then (None, 0)
    else
      var paired := 0xDC00 <= wc <= 0xDFFF;
      var cp: nat := if paired then 0x10000 + (high - 0xD800) * 0x400 + (wc - 0xDC00) else wc;
      var left: HighSurrogate := if paired then 0 else high;
      if cp in {0x0D, 0x0A, 0x09, 0x08, 0x1B, 0x7F} then (None, left)
      else if cp < 0x20 && ctrl then (if cp == 0x16 then None else Some(cp + 0x60), left)
      else (Some(cp), left)
  }

  function OnChar(s: Tab, wc: nat, ctrl: bool): Tab {
    if !InputAllowed(s) then s
    else
      var (cp, high) := Assembled(s.highSurrogate, wc, ctrl);
      var t := s.(highSurrogate := high);
      if cp == None then t else Tap(t, KeysymFromCodePoint(cp.value))
  }

  function MoveTo(s: Tab, x: nat, y: nat): Tab {
    SendPointer(s, s.buttons, x, y).(last := Some((x, y)))
  }

  /** None where the program would read a position it was not given: a release before the picture has a place. */
  function OnButton(s: Tab, down: bool, button: Button, overTitle: bool, point: Option<Point>): Option<Tab> {
    if overTitle || !InputAllowed(s) then Some(s)
    else if down && (point == None || !point.value.inside) then Some(s)
    else if point == None then None
    else
      var buttons := if down then s.buttons + {button} else s.buttons - {button};
      Some(MoveTo(s.(buttons := buttons), point.value.x, point.value.y))
  }

  function OnMove(s: Tab, overTitle: bool, point: Option<Point>): Option<Tab> {
    var t := s.(pointerInside := point != None && point.value.inside && !overTitle);
    if !InputAllowed(t) || (!t.pointerInside && t.buttons == {}) then Some(t)
    else if point == None then None
    else if t.last == Some((point.value.x, point.value.y)) then Some(t)
    else Some(MoveTo(t, point.value.x, point.value.y))
  }

  /** One press and release of a wheel button for each notch. */
  function Notches(s: Tab, bit: Button, n: nat, at: (nat, nat)): Tab {
    if n == 0 then s
    else
      var t := Notches(s, bit, n - 1, at);
      SendPointer(SendPointer(t, t.buttons + {bit}, at.0, at.1), t.buttons, at.0, at.1)
  }

  function OnWheel(s: Tab, up: bool, notches: nat): Tab {
    if !InputAllowed(s) || !s.pointerInside || s.last == None then s
    else Notches(s, if up then WheelUp else WheelDown, if notches == 0 then 1 else notches, s.last.value)
  }

  function KeysUp(s: Tab, held: seq<Keysym>): Tab {
    if held == [] then s else SendKey(KeysUp(s, held[..|held| - 1]), false, held[|held| - 1])
  }

  function ReleaseAll(s: Tab): Tab {
    var t := KeysUp(s, s.held);
    var u := if s.buttons != {} && s.last != None then SendPointer(t, {}, s.last.value.0, s.last.value.1) else t;
    u.(held := [], buttons := {}, highSurrogate := 0)
  }

  function ToggleViewOnly(s: Tab): Tab {
    if s.viewOnly then s.(viewOnly := false) else ReleaseAll(s).(viewOnly := true)
  }

  function SecureAttention(s: Tab): Tab {
    if !InputAllowed(s) then s
    else
      var pressed := SendKey(SendKey(SendKey(s, true, CONTROL_L), true, ALT_L), true, DELETE);
      SendKey(SendKey(SendKey(pressed, false, DELETE), false, ALT_L), false, CONTROL_L)
  }

  /** The text itself, then the keystroke that pastes it over there. */
  function OnClipboard(s: Tab, cut: bool, typeIt: bool): Tab {
    var t := if cut && !s.viewOnly then s.(queue := s.queue + [CutText]) else s;
    if typeIt then Tap(t, KeysymFromCodePoint('v' as int)) else t
  }

  function OnPosted(s: Tab, resize: bool): Option<Tab> {
    if s.posted == [] then None
    else
      var t := s.(posted := s.posted[1..]);
      match s.posted[0]
      case ConnectedEvent =>
        var u := t.(held := [], buttons := {});
        Some(if resize then RequestSize(u) else u)
      case ClosedEvent => Some(t.(held := [], buttons := {}))
      case OtherEvent => Some(t)
  }

  // ---- the system -----------------------------------------------------------------------------------------------

  /** None when the step cannot be taken now. */
  function Step(s: Tab, e: Event): Option<Tab> {
    match e
    case KeyEvent(vk, down, ctrl, shift, right) => Some(OnKey(s, vk, down, ctrl, shift, right))
    case CharEvent(wc, ctrl) => Some(OnChar(s, wc, ctrl))
    case ButtonEvent(down, button, overTitle, point) => if button.WheelUp? || button.WheelDown? then None
                                                        else OnButton(s, down, button, overTitle, point)
    case MoveEvent(overTitle, at) => OnMove(s, overTitle, at)
    case WheelEvent(up, notches) => Some(OnWheel(s, up, notches))
    case ReleaseAllEvent => Some(ReleaseAll(s))
    case ViewOnlyToggle => Some(ToggleViewOnly(s))
    case CtrlAltDel => Some(SecureAttention(s))
    case SendClipboard(cut, typeIt) => Some(OnClipboard(s, cut, typeIt))
    case RequestRefresh => Some(s.(queue := s.queue + [Refresh]))
    case TakePosted(resize) => OnPosted(s, resize)
    case TunnelClosed =>
      if s.alive then Some(Ended(s, false).(held := [], buttons := {})) else None
    case HandshakeTurn => if s.alive && s.link != Up then Some(s.(link := Shaking, queue := [])) else None
    case LinkUp =>
      if s.link == Shaking then
        Some(s.(link := Up, wire := s.queue, queue := [], posted := s.posted + [ConnectedEvent]))
      else None
    case LinkDown =>
      if s.link != Down then Some(s.(link := Down, wire := [], posted := s.posted + [OtherEvent])) else None
    case Deliver => if s.link == Up then Some(s.(wire := s.wire + s.queue, queue := [])) else None
    case WorkerEnds(failed) => if s.alive then Some(Ended(s, failed)) else None
  }

  /** The worker has stopped, of its own accord or because it was told to; a tab never starts it again. */
  function Ended(s: Tab, failed: bool): Tab {
    s.(alive := false, link := Down, wire := [], posted := s.posted + [if failed then OtherEvent else ClosedEvent])
  }

  function Run(s: Tab, es: seq<Event>): Option<Tab>
    decreases |es|
  {
    if es == [] then Some(s)
    else if Step(s, es[0]).None? then None
    else Run(Step(s, es[0]).value, es[1..])
  }

  // ---- the far side ---------------------------------------------------------------------------------------------

  /** The keys a server holds after being sent these commands. */
  function FarKeys(cmds: seq<Command>): set<Keysym> {
    if cmds == [] then {}
    else
      var before := FarKeys(cmds[..|cmds| - 1]);
      match cmds[|cmds| - 1]
      case Key(down, ks) => if down then before + {ks} else before - {ks}
      case _ => before
  }

  function FarButtons(cmds: seq<Command>): set<Button> {
    if cmds == [] then {}
    else if cmds[|cmds| - 1].Pointer? then cmds[|cmds| - 1].mask
    else FarButtons(cmds[..|cmds| - 1])
  }

  /** Everything this connection has been or will be sent; what is queued before a handshake never is. */
  function Sent(s: Tab): seq<Command> {
    if s.link == Down then [] else s.wire + s.queue
  }

  /** The record covers what the far side holds once the queue is through. */
  ghost predicate Covers(s: Tab) {
    FarKeys(Sent(s)) <= (set k | k in s.held) && FarButtons(Sent(s)) <= s.buttons
  }

  /** The record covers the far side, a handshake has nothing held in store for it, and the buttons are exactly the far
    * side's while the window knows of the connection it has. */
  ghost predicate Inv(s: Tab) {
    && Covers(s)
    && (s.link == Up && ConnectedEvent !in s.posted ==> FarButtons(Sent(s)) == s.buttons)
    && (s.link == Shaking ==> FarKeys(Sent(s)) == {} && FarButtons(Sent(s)) == {})
    && (s.link != Down ==> s.alive) && (s.link != Up ==> s.wire == [])
    && (ClosedEvent in s.posted ==> !s.alive)
    && (s.viewOnly ==> s.held == [] && s.buttons == {})
    && (s.buttons != {} ==> s.last != None)
    && (forall k :: k in s.held ==> 0xFF00 <= k <= 0xFFFF)
  }

  ghost function K(s: Tab): set<Keysym> {
    FarKeys(Sent(s))
  }

  ghost function B(s: Tab): set<Button> {
    FarButtons(Sent(s))
  }

  // ---- what each kind of command does to the far side -------------------------------------------------------------

  lemma OneMore(cmds: seq<Command>, c: Command)
    ensures FarKeys(cmds + [c]) ==
      if c.Key? then if c.down then FarKeys(cmds) + {c.ks} else FarKeys(cmds) - {c.ks} else FarKeys(cmds)
    ensures FarButtons(cmds + [c]) == if c.Pointer? then c.mask else FarButtons(cmds)
  {}

  /** While there is no handshake nothing that is queued counts. */
  lemma NothingIsSent(s: Tab)
    requires s.link == Down
    ensures K(s) == {} && B(s) == {}
  {}

  lemma Queued(s: Tab, c: Command)
    requires s.link != Down
    ensures var t := s.(queue := s.queue + [c]);
      && K(t) == (if c.Key? then if c.down then K(s) + {c.ks} else K(s) - {c.ks} else K(s))
      && B(t) == (if c.Pointer? then c.mask else B(s))
  {
    hide FarKeys, FarButtons;
    OneMore(Sent(s), c);
    assert s.wire + (s.queue + [c]) == Sent(s) + [c];
  }

  lemma KeySent(s: Tab, down: bool, ks: Keysym)
    requires !s.viewOnly && s.link != Down
    ensures K(SendKey(s, down, ks)) == (if down then K(s) + {ks} else K(s) - {ks}) && B(SendKey(s, down, ks)) == B(s)
  {
    hide K, B;
    Queued(s, Key(down, ks));
  }

  lemma PointerSent(s: Tab, mask: set<Button>, x: nat, y: nat)
    requires !s.viewOnly && s.link != Down
    ensures K(SendPointer(s, mask, x, y)) == K(s) && B(SendPointer(s, mask, x, y)) == mask
  {
    hide FarKeys, FarButtons;
    var q, c := s.queue, Pointer(mask, x, y);
    Queued(s, c);
    if q != [] && q[|q| - 1].Pointer? && q[|q| - 1].mask == mask {
      var front := s.(queue := q[..|q| - 1]);
      assert q == front.queue + [q[|q| - 1]];
      Queued(front, q[|q| - 1]);
      Queued(front, c);
    }
  }

  lemma {:induction false} WithoutResizesSame(cmds: seq<Command>, q: seq<Command>)
    ensures FarKeys(cmds + WithoutResizes(q)) == FarKeys(cmds + q) &&
            FarButtons(cmds + WithoutResizes(q)) == FarButtons(cmds + q)
  {
    hide FarKeys, FarButtons;
    if q != [] {
      var front, c := q[..|q| - 1], q[|q| - 1];
      WithoutResizesSame(cmds, front);
      OneMore(cmds + front, c);
      OneMore(cmds + WithoutResizes(front), c);
      assert cmds + q == (cmds + front) + [c];
      assert cmds + (WithoutResizes(front) + [c]) == (cmds + WithoutResizes(front)) + [c];
      assert cmds + (WithoutResizes(front) + []) == cmds + WithoutResizes(front);
    }
  }

  lemma SizeRequested(s: Tab)
    ensures K(RequestSize(s)) == K(s) && B(RequestSize(s)) == B(s)
  {
    hide FarKeys, FarButtons;
    if s.link != Down {
      WithoutResizesSame(s.wire, s.queue);
      Queued(s.(queue := WithoutResizes(s.queue)), Resize);
    }
  }

  lemma {:induction false} InWithout(held: seq<Keysym>, ks: Keysym, k: Keysym)
    ensures k in Without(held, ks) <==> k in held && k != ks
  {
    if held != [] {
      InWithout(held[1..], ks, k);
    }
  }

  lemma {:induction false} KeysUpEffect(s: Tab, held: seq<Keysym>)
    requires !s.viewOnly
    ensures K(KeysUp(s, held)) == K(s) - (set k | k in held) && B(KeysUp(s, held)) == B(s)
    ensures KeysUp(s, held) == s.(queue := KeysUp(s, held).queue)
  {
    hide K, B;
    if held != [] {
      var t := KeysUp(s, held[..|held| - 1]);
      KeysUpEffect(s, held[..|held| - 1]);
      if s.link == Down {
        NothingIsSent(s);
        NothingIsSent(KeysUp(s, held));
      } else {
        KeySent(t, false, held[|held| - 1]);
      }
      assert held == held[..|held| - 1] + [held[|held| - 1]];
    }
  }

  lemma {:induction false} NotchesEffect(s: Tab, bit: Button, n: nat, at: (nat, nat))
    requires !s.viewOnly && s.link != Down
    ensures var t := Notches(s, bit, n, at);
      K(t) == K(s) && B(t) == (if n == 0 then B(s) else s.buttons) && t == s.(queue := t.queue)
  {
    hide K, B, PushPointer;
    if n > 0 {
      var t := Notches(s, bit, n - 1, at);
      NotchesEffect(s, bit, n - 1, at);
      PointerSent(t, t.buttons + {bit}, at.0, at.1);
      PointerSent(SendPointer(t, t.buttons + {bit}, at.0, at.1), t.buttons, at.0, at.1);
    }
  }

  lemma TapEffect(s: Tab, ks: Keysym)
    ensures var t := Tap(s, ks);
      && t == s.(queue := t.queue) && B(t) == B(s)
      && K(t) == if s.viewOnly then K(s) else K(s) - {ks}
  {
    hide K, B;
    if s.link == Down {
      NothingIsSent(s);
      NothingIsSent(Tap(s, ks));
    } else if !s.viewOnly {
      KeySent(s, true, ks);
      KeySent(SendKey(s, true, ks), false, ks);
    }
  }

  lemma SecureAttentionEffect(s: Tab)
    requires InputAllowed(s)
    ensures var t := SecureAttention(s);
      t == s.(queue := t.queue) && K(t) == K(s) - {CONTROL_L, ALT_L, DELETE} && B(t) == B(s)
  {
    hide K, B;
    var a := SendKey(s, true, CONTROL_L);
    var b := SendKey(a, true, ALT_L);
    var c := SendKey(b, true, DELETE);
    var d := SendKey(c, false, DELETE);
    var e := SendKey(d, false, ALT_L);
    KeySent(s, true, CONTROL_L);
    KeySent(a, true, ALT_L);
    KeySent(b, true, DELETE);
    KeySent(c, false, DELETE);
    KeySent(d, false, ALT_L);
    KeySent(e, false, CONTROL_L);
  }

  // ---- every step -------------------------------------------------------------------------------------------------

  /** A step that leaves the record and the connection alone and adds nothing to the far side. */
  lemma LessIsCovered(s: Tab, t: Tab)
    requires Inv(s) && t == s.(queue := t.queue, highSurrogate := t.highSurrogate, pointerInside := t.pointerInside)
    requires K(t) <= K(s) && B(t) == B(s)
    ensures Inv(t)
  {}

  lemma KeyKeepsInv(s: Tab, vk: nat, down: bool, ctrl: bool, shift: bool, right: bool)
    requires Inv(s)
    ensures Inv(OnKey(s, vk, down, ctrl, shift, right))
  {
    hide FarKeys, FarButtons, KeysymFromVirtualKey;
    var t := OnKey(s, vk, down, ctrl, shift, right);
    var ks := KeysymFromVirtualKey(vk, right);
    if InputAllowed(s) {
      KeySent(s, down, ks);
      forall k: nat
        ensures k in Without(s.held, ks) <==> k in s.held && k != ks
      {
        InWithout(s.held, ks, k);
      }
    }
  }

  lemma MoveToKeepsInv(s: Tab, t: Tab, x: nat, y: nat)
    requires Inv(s) && InputAllowed(s) && t == s.(buttons := t.buttons, pointerInside := t.pointerInside)
    ensures Inv(MoveTo(t, x, y))
  {
    hide FarKeys, FarButtons, PushPointer;
    PointerSent(t, t.buttons, x, y);
  }

  lemma ReleaseAllEffect(s: Tab)
    requires Inv(s)
    ensures var t := ReleaseAll(s);
      && t == s.(held := [], buttons := {}, highSurrogate := 0, queue := t.queue)
      && K(t) == {} && B(t) == {}
  {
    hide FarKeys, FarButtons, PushPointer;
    if s.viewOnly {
      assert s.held == [] && s.buttons == {};
    } else if s.link == Down {
      KeysUpEffect(s, s.held);
      NothingIsSent(ReleaseAll(s));
    } else {
      KeysUpEffect(s, s.held);
      var u := KeysUp(s, s.held);
      if s.buttons != {} {
        PointerSent(u, {}, s.last.value.0, s.last.value.1);
      }
    }
  }

  lemma WindowKeepsInv(s: Tab, e: Event)
    requires Inv(s) && Step(s, e).Some? && !e.TakePosted?
    requires !e.HandshakeTurn? && !e.LinkUp? && !e.LinkDown? && !e.Deliver? && !e.WorkerEnds? && !e.TunnelClosed?
    ensures Inv(Step(s, e).value)
  {
    hide FarKeys, FarButtons, OnKey, MoveTo, Tap, ReleaseAll, SecureAttention, Notches, K, B, Inv;
    match e
    case KeyEvent(vk, down, ctrl, shift, right) => KeyKeepsInv(s, vk, down, ctrl, shift, right);
    case CharEvent(wc, ctrl) =>
      var (cp, high) := Assembled(s.highSurrogate, wc, ctrl);
      var t := s.(highSurrogate := high);
      SameSent(s, t);
      LessIsCovered(s, t);
      if InputAllowed(s) && cp != None {
        TapEffect(t, KeysymFromCodePoint(cp.value));
        LessIsCovered(t, Tap(t, KeysymFromCodePoint(cp.value)));
      }
    case ButtonEvent(down, button, overTitle, point) =>
      if InputAllowed(s) && point != None {
        MoveToKeepsInv(s, s.(buttons := if down then s.buttons + {button} else s.buttons - {button}), point.value.x,
                       point.value.y);
      }
    case MoveEvent(overTitle, at) =>
      var t := s.(pointerInside := at != None && at.value.inside && !overTitle);
      SameSent(s, t);
      LessIsCovered(s, t);
      if InputAllowed(s) && at != None {
        MoveToKeepsInv(s, t, at.value.x, at.value.y);
      }
    case WheelEvent(up, notches) => WheelKeepsInv(s, up, notches);
    case ReleaseAllEvent => ReleasedKeepsInv(s);
    case ViewOnlyToggle => ToggleKeepsInv(s);
    case CtrlAltDel =>
      if InputAllowed(s) {
        SecureAttentionEffect(s);
        LessIsCovered(s, SecureAttention(s));
      } else {
        assert SecureAttention(s) == s by { NoAttention(s); }
      }
    case SendClipboard(cut, typeIt) =>
      var t := if cut && !s.viewOnly then s.(queue := s.queue + [CutText]) else s;
      Unheld(s, CutText);
      LessIsCovered(s, t);
      TapEffect(t, KeysymFromCodePoint('v' as int));
      LessIsCovered(t, Tap(t, KeysymFromCodePoint('v' as int)));
    case RequestRefresh =>
      Unheld(s, Refresh);
      LessIsCovered(s, s.(queue := s.queue + [Refresh]));
  }

  lemma Unheld(s: Tab, c: Command)
    requires !c.Key? && !c.Pointer?
    ensures var t := s.(queue := s.queue + [c]); K(t) == K(s) && B(t) == B(s)
  {
    hide FarKeys, FarButtons;
    if s.link != Down {
      Queued(s, c);
    }
  }

  lemma SameSent(s: Tab, t: Tab)
    requires t.queue == s.queue && t.wire == s.wire && t.link == s.link
    ensures K(t) == K(s) && B(t) == B(s)
  {}

  lemma NoAttention(s: Tab)
    requires !InputAllowed(s)
    ensures SecureAttention(s) == s
  {}

  lemma WheelKeepsInv(s: Tab, up: bool, notches: nat)
    requires Inv(s)
    ensures Inv(OnWheel(s, up, notches))
  {
    hide FarKeys, FarButtons, Notches;
    if InputAllowed(s) && s.pointerInside && s.last != None {
      NotchesEffect(s, if up then WheelUp else WheelDown, if notches == 0 then 1 else notches, s.last.value);
    }
  }

  lemma ReleasedKeepsInv(s: Tab)
    requires Inv(s)
    ensures Inv(ReleaseAll(s))
  {
    hide FarKeys, FarButtons, ReleaseAll;
    ReleaseAllEffect(s);
  }

  lemma ToggleKeepsInv(s: Tab)
    requires Inv(s)
    ensures Inv(ToggleViewOnly(s))
  {
    hide FarKeys, FarButtons, ReleaseAll;
    ReleaseAllEffect(s);
    SameSent(if s.viewOnly then s else ReleaseAll(s), ToggleViewOnly(s));
  }

  lemma WorkerKeepsInv(s: Tab, e: Event)
    requires Inv(s) && Step(s, e).Some?
    requires e.HandshakeTurn? || e.LinkUp? || e.LinkDown? || e.Deliver? || e.WorkerEnds? || e.TunnelClosed?
    ensures Inv(Step(s, e).value)
  {
    hide FarKeys, FarButtons;
    NothingHeld();
    var none: seq<Command> := [];
    assert none + s.queue == s.queue && s.queue + none == s.queue && none + none == none;
    assert (s.wire + s.queue) + [] == s.wire + s.queue;
  }

  lemma NothingHeld()
    ensures FarKeys([]) == {} && FarButtons([]) == {}
  {}

  /** A connection comes up with nothing held on it: whatever was pressed on the one before was thrown away by a turn of
    * the handshake, and what the window queues without a connection presses nothing that it does not release. */
  lemma NothingCrossesOver(s: Tab)
    requires Inv(s) && Step(s, LinkUp).Some?
    ensures var t := Step(s, LinkUp).value; K(t) == {} && B(t) == {} && Balanced(Sent(t))
  {
    hide FarKeys, FarButtons, Balanced;
    assert [] + s.queue == s.queue + [] == s.queue;
    BalancedIff(s.queue);
  }

  // ---- the one step that can break it -----------------------------------------------------------------------------

  predicate ReleasedLater(cmds: seq<Command>, i: nat)
    requires i < |cmds|
  {
    match cmds[i]
    case Key(down, ks) => down ==> Key(false, ks) in cmds[i + 1..]
    case Pointer(mask, x, y) => mask != {} ==> exists j :: i < j < |cmds| && cmds[j].Pointer? && cmds[j].mask == {}
    case _ => true
  }

  /** Every press among these commands is followed by its release. */
  predicate Balanced(cmds: seq<Command>) {
    forall i :: 0 <= i < |cmds| ==> ReleasedLater(cmds, i)
  }

  lemma {:induction false} FarKeysIff(cmds: seq<Command>, k: Keysym)
    ensures k in FarKeys(cmds) <==>
            exists i :: 0 <= i < |cmds| && cmds[i] == Key(true, k) && Key(false, k) !in cmds[i + 1..]
  {
    if cmds != [] {
      var front, c := cmds[..|cmds| - 1], cmds[|cmds| - 1];
      FarKeysIff(front, k);
      forall i | 0 <= i < |front|
        ensures cmds[i + 1..] == front[i + 1..] + [c] && cmds[i] == front[i]
      {}
      assert cmds[|front| + 1..] == [];
    }
  }

  lemma {:induction false} FarButtonsIff(cmds: seq<Command>)
    ensures FarButtons(cmds) == {} <==> forall i :: 0 <= i < |cmds| && cmds[i].Pointer? ==> ReleasedLater(cmds, i)
  {
    if cmds != [] {
      var front, c := cmds[..|cmds| - 1], cmds[|cmds| - 1];
      FarButtonsIff(front);
      assert forall i :: 0 <= i < |front| ==> cmds[i] == front[i];
      if c.Pointer? {
        if c.mask == {} {
          assert cmds[|cmds| - 1].mask == {};
        } else {
          assert !ReleasedLater(cmds, |cmds| - 1);
        }
      } else {
        forall i | 0 <= i < |front| && front[i].Pointer?
          ensures ReleasedLater(cmds, i) <==> ReleasedLater(front, i)
        {}
      }
    }
  }

  /** Nothing is held after commands exactly when every press among them is followed by its release. */
  lemma BalancedIff(cmds: seq<Command>)
    ensures FarKeys(cmds) == {} && FarButtons(cmds) == {} <==> Balanced(cmds)
  {
    hide FarKeys, FarButtons;
    FarButtonsIff(cmds);
    forall i | 0 <= i < |cmds| && cmds[i].Key? && cmds[i].down
      ensures ReleasedLater(cmds, i) || cmds[i].ks in FarKeys(cmds)
    {
      FarKeysIff(cmds, cmds[i].ks);
    }
    forall k | k in FarKeys(cmds)
      ensures exists i :: 0 <= i < |cmds| && !ReleasedLater(cmds, i)
    {
      FarKeysIff(cmds, k);
      var i :| 0 <= i < |cmds| && cmds[i] == Key(true, k) && Key(false, k) !in cmds[i + 1..];
      assert !ReleasedLater(cmds, i);
    }
  }

  /** The window takes the news of a connection while the one there is has been sent, or is about to be, a press without
    * its release; and forgets it. */
  predicate Forgets(s: Tab, e: Event) {
    e.TakePosted? && s.posted != [] && s.posted[0] == ConnectedEvent && s.link == Up && !Balanced(s.wire + s.queue)
  }

  lemma ClearedKeepsInvIff(s: Tab, v: Tab)
    requires Inv(s) && s.posted != [] && v == s.(posted := s.posted[1..], held := [], buttons := {}, queue := v.queue)
    requires K(v) == K(s) && B(v) == B(s)
    ensures Inv(v) <==> K(s) == {} && B(s) == {}
  {
    hide FarKeys, FarButtons;
    assert forall p :: p in s.posted[1..] ==> p in s.posted;
  }

  lemma TakingKeepsInvIff(s: Tab, e: Event)
    requires Inv(s) && Step(s, e).Some? && e.TakePosted?
    ensures Inv(Step(s, e).value) <==> !Forgets(s, e)
  {
    hide FarKeys, FarButtons, Balanced, RequestSize;
    var t := s.(posted := s.posted[1..]);
    var u := t.(held := [], buttons := {});
    SameSent(s, t);
    SameSent(s, u);
    if s.posted[0] == OtherEvent {
      assert s.posted == [OtherEvent] + t.posted;
    } else {
      SizeRequested(u);
      RequestSizeOnly(u);
      ClearedKeepsInvIff(s, Step(s, e).value);
      BalancedIff(s.wire + s.queue);
      if s.link != Up {
        NothingIsHeldBelow(s);
      }
    }
  }

  lemma NothingIsHeldBelow(s: Tab)
    requires Inv(s) && s.link != Up
    ensures K(s) == {} && B(s) == {}
  {}

  lemma RequestSizeOnly(s: Tab)
    ensures RequestSize(s) == s.(queue := RequestSize(s).queue)
  {}

  /** Every step keeps the record covering the far side, but for one: taking the news of a connection after something
    * was pressed on the present one and not released. By NothingCrossesOver that was pressed since it came up. */
  lemma StepKeepsInvIff(s: Tab, e: Event)
    requires Inv(s) && Step(s, e).Some?
    ensures Inv(Step(s, e).value) <==> !Forgets(s, e)
    ensures Covers(Step(s, e).value) <==> !Forgets(s, e)
  {
    hide Inv, Step, Balanced, Sent, Covers;
    StepKeepsAllIff(s, e);
    if Forgets(s, e) {
      ForgettingUncovers(s, e);
    } else {
      InvCovers(Step(s, e).value);
    }
  }

  lemma InvCovers(s: Tab)
    requires Inv(s)
    ensures Covers(s)
  {}

  lemma ForgettingUncovers(s: Tab, e: Event)
    requires Step(s, e).Some? && Forgets(s, e)
    ensures !Covers(Step(s, e).value)
  {
    hide FarKeys, FarButtons, Balanced, RequestSize;
    var u := s.(posted := s.posted[1..], held := [], buttons := {});
    SameSent(s, u);
    SizeRequested(u);
    RequestSizeOnly(u);
    BalancedIff(s.wire + s.queue);
  }

  lemma StepKeepsAllIff(s: Tab, e: Event)
    requires Inv(s) && Step(s, e).Some?
    ensures Inv(Step(s, e).value) <==> !Forgets(s, e)
  {
    hide Inv, Step, Balanced, Sent;
    if e.TakePosted? {
      TakingKeepsInvIff(s, e);
    } else if e.HandshakeTurn? || e.LinkUp? || e.LinkDown? || e.Deliver? || e.WorkerEnds? || e.TunnelClosed? {
      WorkerKeepsInv(s, e);
    } else {
      WindowKeepsInv(s, e);
    }
  }

  ghost predicate AlwaysInv(s: Tab, es: seq<Event>)
    decreases |es|
  {
    Inv(s) && (es != [] && Step(s, es[0]).Some? ==> AlwaysInv(Step(s, es[0]).value, es[1..]))
  }

  predicate NeverForgets(s: Tab, es: seq<Event>)
    decreases |es|
  {
    es != [] && Step(s, es[0]).Some? ==> !Forgets(s, es[0]) && NeverForgets(Step(s, es[0]).value, es[1..])
  }

  ghost predicate AlwaysCovers(s: Tab, es: seq<Event>)
    decreases |es|
  {
    Covers(s) && (es != [] && Step(s, es[0]).Some? ==> AlwaysCovers(Step(s, es[0]).value, es[1..]))
  }

  /** Over any run: the record covers the far side throughout exactly when no such news is taken, and then the whole
    * invariant holds throughout as well. */
  lemma {:induction false} RunCoversIff(s: Tab, es: seq<Event>)
    requires Inv(s)
    ensures AlwaysCovers(s, es) <==> NeverForgets(s, es)
    ensures AlwaysInv(s, es) <==> NeverForgets(s, es)
    decreases |es|
  {
    hide Inv, Covers, Step, Forgets;
    InvCovers(s);
    if es != [] && Step(s, es[0]).Some? {
      StepKeepsInvIff(s, es[0]);
      var t := Step(s, es[0]).value;
      if Inv(t) {
        RunCoversIff(t, es[1..]);
      }
    }
  }

  lemma InitHasInv(viewOnly: bool)
    ensures Inv(Init(viewOnly))
  {}

  lemma {:induction false} AlwaysEndsWell(s: Tab, es: seq<Event>)
    requires AlwaysInv(s, es) && Run(s, es).Some?
    ensures Inv(Run(s, es).value)
    decreases |es|
  {
    hide Inv, Step;
    if es != [] {
      AlwaysEndsWell(Step(s, es[0]).value, es[1..]);
    }
  }

  function Delivered(s: Tab): Tab {
    s.(wire := s.wire + s.queue, queue := [])
  }

  /** After any run that never forgets: the far side holds no more than the record, releasing everything leaves it
    * holding nothing, and a view-only desktop holds nothing, all once the queue is through. */
  lemma FarSideIsSafe(viewOnly: bool, es: seq<Event>)
    requires Run(Init(viewOnly), es).Some? && NeverForgets(Init(viewOnly), es)
    ensures var s := Run(Init(viewOnly), es).value;
      && (s.link == Up ==>
          FarKeys(Delivered(s).wire) <= (set k | k in s.held) && FarButtons(Delivered(s).wire) <= s.buttons)
      && (s.link == Up && ConnectedEvent !in s.posted ==> FarButtons(Delivered(s).wire) == s.buttons)
      && (s.link == Up ==> var t := Delivered(ReleaseAll(s)); FarKeys(t.wire) == {} && FarButtons(t.wire) == {})
      && (s.link == Up && s.viewOnly ==> FarKeys(Delivered(s).wire) == {} && FarButtons(Delivered(s).wire) == {})
  {
    hide Run, NeverForgets, AlwaysInv, FarKeys, FarButtons, ReleaseAll;
    InitHasInv(viewOnly);
    RunCoversIff(Init(viewOnly), es);
    AlwaysEndsWell(Init(viewOnly), es);
    ReleaseAllEffect(Run(Init(viewOnly), es).value);
  }

  // ---- runs that go wrong, and a comment that does ------------------------------------------------------------------

  const F1: nat := 0x70

  lemma RunStep(s: Tab, es: seq<Event>, k: nat, t: Tab)
    requires k < |es| && Step(s, es[k]) == Some(t)
    ensures Run(s, es[k..]) == Run(t, es[k + 1..])
  {}

  const PRESS := KeyEvent(F1, true, false, false, false)
  const F1_KEYSYM: Keysym := 0xFFBE

  /** The key is down on the far side, and neither the record nor anything still to be sent or taken knows of it. */
  ghost predicate Stuck(s: Tab) {
    s.posted == [] && s.queue == [] && s.held == [] && FarKeys(s.wire) == {F1_KEYSYM}
  }

  lemma PressIsDown(s: Tab)
    requires s.posted == [] && s.queue == [] && s.held == [] && s.wire == [Key(true, F1_KEYSYM)]
    ensures Stuck(s)
  {}

  lemma RunNothing(s: Tab, es: seq<Event>)
    ensures Run(s, es[|es|..]) == Some(s)
  {}

  /** Connected, its news taken, and nothing held. */
  const UP := Init(false).(link := Up)
  const EARLY := [HandshakeTurn, LinkUp, PRESS, TakePosted(false), Deliver, ViewOnlyToggle]

  lemma PressQueues(s: Tab)
    requires InputAllowed(s) && s.held == [] && s.queue == []
    ensures Step(s, PRESS) == Some(s.(held := [F1_KEYSYM], queue := [Key(true, F1_KEYSYM)]))
  {
    assert s.held + [F1_KEYSYM] == [F1_KEYSYM];
    assert s.queue + [Key(true, F1_KEYSYM)] == [Key(true, F1_KEYSYM)];
  }

  lemma TakesTheNews(s: Tab)
    requires s.posted == [ConnectedEvent]
    ensures Step(s, TakePosted(false)) == Some(s.(held := [], buttons := {}, posted := []))
  {
    assert s.posted[1..] == [];
  }

  lemma LinkComesUp(s: Tab)
    requires s.link == Shaking && s.queue == [] && s.posted == [] && s.wire == []
    ensures Step(s, LinkUp) == Some(s.(link := Up, posted := [ConnectedEvent]))
  {
    assert s.posted + [ConnectedEvent] == [ConnectedEvent];
  }

  lemma Delivers(s: Tab)
    requires s.link == Up && s.wire == []
    ensures Step(s, Deliver) == Some(s.(wire := s.queue, queue := []))
  {
    assert [] + s.queue == s.queue;
  }

  /** A key pressed after the link comes up and before the window has taken the news of it is down on the far side and
    * in no record: releasing everything sends nothing for it, and the desktop then turned view-only holds it. */
  lemma EarlyPress()
    ensures var s := Run(Init(false), EARLY);
      s.Some? && Stuck(s.value) && s.value.viewOnly && s.value.link == Up && K(s.value) == {F1_KEYSYM}
  {
    hide Run, Stuck;
    var q := [Key(true, F1_KEYSYM)];
    var s1 := Init(false).(link := Shaking);
    var s2 := UP.(posted := [ConnectedEvent]);
    var s3 := s2.(held := [F1_KEYSYM], queue := q);
    var s4 := UP.(queue := q);
    var s5 := UP.(wire := q);
    var s6 := s5.(viewOnly := true);
    assert EARLY[0..] == EARLY;
    RunStep(Init(false), EARLY, 0, s1);
    LinkComesUp(s1);
    RunStep(s1, EARLY, 1, s2);
    PressQueues(s2);
    RunStep(s2, EARLY, 2, s3);
    TakesTheNews(s3);
    RunStep(s3, EARLY, 3, s4);
    Delivers(s4);
    RunStep(s4, EARLY, 4, s5);
    RunStep(s5, EARLY, 5, s6);
    RunNothing(s6, EARLY);
    PressIsDown(s6);
    StuckIsSent(s6);
  }

  lemma StuckIsSent(s: Tab)
    requires Stuck(s) && s.link == Up
    ensures K(s) == {F1_KEYSYM}
  {
    assert s.wire + s.queue == s.wire;
  }

  lemma SideIgnored(vk: nat, right: bool)
    ensures vk != VK_SHIFT && vk != VK_CONTROL && vk != VK_MENU ==>
      KeysymFromVirtualKey(vk, right) == KeysymFromVirtualKey(vk, false)
  {}

  lemma SideMattersIff(vk: nat, right: bool, rightAfter: bool)
    requires KeysymFromVirtualKey(vk, right) != 0
    ensures KeysymFromVirtualKey(vk, rightAfter) != 0
    ensures KeysymFromVirtualKey(vk, right) == KeysymFromVirtualKey(vk, rightAfter) <==> SameSide(vk, right, rightAfter)
  {}

  predicate SameSide(vk: nat, right: bool, rightAfter: bool) {
    (vk != VK_SHIFT && vk != VK_CONTROL && vk != VK_MENU) || right == rightAfter
  }

  /** The handler acts on a key that types nothing: input is allowed, and it is not one of the application's own
    * chords. */
  predicate Acts(s: Tab, vk: nat, ctrl: bool, shift: bool) {
    InputAllowed(s) && !(ctrl && shift) && vk != VK_LWIN && vk != VK_RWIN
  }

  lemma PressHoldsIff(s: Tab, vk: nat, ctrl: bool, shift: bool, right: bool, ks: Keysym)
    requires KeysymFromVirtualKey(vk, right) == ks != 0
    ensures var t := OnKey(s, vk, true, ctrl, shift, right);
      && (ks in t.held <==> ks in s.held || Acts(s, vk, ctrl, shift))
      && (ks in K(t) <==> ks in K(s) || Acts(s, vk, ctrl, shift))
  {
    hide K, B;
    if Acts(s, vk, ctrl, shift) {
      KeySent(s, true, ks);
      SameSent(SendKey(s, true, ks), OnKey(s, vk, true, ctrl, shift, right));
    }
  }

  /** A release lets go of a key exactly when the handler acts on it and it names the keysym that is down. */
  lemma ReleaseFreesIff(s: Tab, vk: nat, ctrl: bool, shift: bool, right: bool, ks: Keysym)
    requires ks != 0
    ensures var t := OnKey(s, vk, false, ctrl, shift, right);
      var freed := Acts(s, vk, ctrl, shift) && KeysymFromVirtualKey(vk, right) == ks;
      (ks in t.held <==> ks in s.held && !freed) && (ks in K(t) <==> ks in K(s) && !freed)
  {
    hide K, B, Without, KeysymFromVirtualKey;
    var named := KeysymFromVirtualKey(vk, right);
    if Acts(s, vk, ctrl, shift) && named != 0 && !(ctrl && vk == VK_V) {
      KeySent(s, false, named);
      SameSent(SendKey(s, false, named), OnKey(s, vk, false, ctrl, shift, right));
      InWithout(s.held, named, ks);
    }
    VTypesSomething(right);
  }

  lemma VTypesSomething(right: bool)
    ensures KeysymFromVirtualKey(VK_V, right) == 0
  {}

  /** A key that was up goes down and up again, whatever happens between the two that leaves that keysym alone and
    * whatever else is held at either: afterwards it is up, in the record and on the far side, exactly when the press
    * was not acted on, or the release was and named the same side. So a key let go under Ctrl+Shift stays down, and so
    * does a right modifier, which is seen as the left one on its way up; until everything is released. */
  lemma UpAgainIff(s: Tab, vk: nat, ctrl: bool, shift: bool, right: bool, u: Tab, ctrlAfter: bool, shiftAfter: bool,
                   rightAfter: bool)
    requires var ks := KeysymFromVirtualKey(vk, right); ks != 0 && ks !in s.held && ks !in K(s)
    requires var ks := KeysymFromVirtualKey(vk, right);
      var t := OnKey(s, vk, true, ctrl, shift, right);
      (ks in u.held <==> ks in t.held) && (ks in K(u) <==> ks in K(t))
    ensures var t := OnKey(u, vk, false, ctrlAfter, shiftAfter, rightAfter);
      var ks := KeysymFromVirtualKey(vk, right);
      var up := !Acts(s, vk, ctrl, shift) || (Acts(u, vk, ctrlAfter, shiftAfter) && SameSide(vk, right, rightAfter));
      (ks !in t.held <==> up) && (ks !in K(t) <==> up)
  {
    hide KeysymFromVirtualKey, K, OnKey, Acts;
    var ks := KeysymFromVirtualKey(vk, right);
    SideMattersIff(vk, right, rightAfter);
    PressHoldsIff(s, vk, ctrl, shift, right, ks);
    ReleaseFreesIff(u, vk, ctrlAfter, shiftAfter, rightAfter, ks);
  }

  // ---- a key that no record has ---------------------------------------------------------------------------------

  /** What ends a key's being down and in no record: the handler acts on it, Ctrl+Alt+Del is sent and it is one of the
    * three, or the connection is over. */
  predicate Ends(s: Tab, e: Event, ks: Keysym) {
    match e
    case KeyEvent(vk, _, ctrl, shift, right) => Acts(s, vk, ctrl, shift) && KeysymFromVirtualKey(vk, right) == ks
    case CtrlAltDel => InputAllowed(s) && ks in {CONTROL_L, ALT_L, DELETE}
    case LinkDown => true
    case WorkerEnds(_) => true
    case TunnelClosed => true
    case _ => false
  }

  predicate IsHeldKind(ks: Keysym) {
    0xFF00 <= ks <= 0xFFFF
  }

  lemma KeyEnds(s: Tab, vk: nat, down: bool, ctrl: bool, shift: bool, right: bool, ks: Keysym)
    requires ks != 0
    ensures var t := OnKey(s, vk, down, ctrl, shift, right);
      var named := Acts(s, vk, ctrl, shift) && KeysymFromVirtualKey(vk, right) == ks;
      && (ks in K(t) <==> if named then down else ks in K(s))
      && (ks in t.held <==> if named then down else ks in s.held)
      && t.link == s.link
  {
    hide K, KeysymFromVirtualKey, Without;
    if !down {
      ReleaseFreesIff(s, vk, ctrl, shift, right, ks);
    } else if KeysymFromVirtualKey(vk, right) == ks {
      PressHoldsIff(s, vk, ctrl, shift, right, ks);
    } else if Acts(s, vk, ctrl, shift) {
      OtherPress(s, vk, ctrl, shift, right, ks);
    }
  }

  lemma OtherPress(s: Tab, vk: nat, ctrl: bool, shift: bool, right: bool, ks: Keysym)
    requires Acts(s, vk, ctrl, shift) && KeysymFromVirtualKey(vk, right) != ks
    ensures var t := OnKey(s, vk, true, ctrl, shift, right);
      (ks in K(t) <==> ks in K(s)) && (ks in t.held <==> ks in s.held)
  {
    hide K, KeysymFromVirtualKey, B;
    var named := KeysymFromVirtualKey(vk, right);
    VTypesSomething(right);
    if named != 0 {
      KeySent(s, true, named);
      SameSent(SendKey(s, true, named), OnKey(s, vk, true, ctrl, shift, right));
    }
  }

  lemma ReleaseAllKeys(s: Tab)
    requires s.link == Up
    ensures K(ReleaseAll(s)) == if s.viewOnly then K(s) else K(s) - (set k | k in s.held)
    ensures ReleaseAll(s).held == [] && ReleaseAll(s).link == Up
  {
    hide FarKeys, FarButtons, PushPointer;
    if s.viewOnly {
      SilentKeys(s, s.held);
      SameSent(s, ReleaseAll(s));
    } else {
      KeysUpEffect(s, s.held);
      var u := KeysUp(s, s.held);
      if s.buttons != {} && s.last != None {
        PointerSent(u, {}, s.last.value.0, s.last.value.1);
        SameSent(SendPointer(u, {}, s.last.value.0, s.last.value.1), ReleaseAll(s));
      } else {
        SameSent(u, ReleaseAll(s));
      }
    }
  }

  lemma {:induction false} SilentKeys(s: Tab, held: seq<Keysym>)
    requires s.viewOnly
    ensures KeysUp(s, held) == s
  {
    if held != [] {
      SilentKeys(s, held[..|held| - 1]);
    }
  }

  lemma MoveToKeys(s: Tab, t: Tab, x: nat, y: nat)
    requires s.link == Up && t == s.(buttons := t.buttons, pointerInside := t.pointerInside)
    ensures K(MoveTo(t, x, y)) == K(s) && MoveTo(t, x, y).held == s.held && MoveTo(t, x, y).link == Up
  {
    hide FarKeys, FarButtons, PushPointer;
    SameSent(s, t);
    if !t.viewOnly {
      PointerSent(t, t.buttons, x, y);
    }
    SameSent(SendPointer(t, t.buttons, x, y), MoveTo(t, x, y));
  }

  lemma PointerKeys(s: Tab, e: Event)
    requires s.link == Up && Step(s, e).Some? && (e.ButtonEvent? || e.MoveEvent? || e.WheelEvent?)
    ensures var t := Step(s, e).value; K(t) == K(s) && t.held == s.held && t.link == Up
  {
    hide K, MoveTo, Notches;
    match e
    case ButtonEvent(down, button, overTitle, point) =>
      if point != None {
        MoveToKeys(s, s.(buttons := if down then s.buttons + {button} else s.buttons - {button}), point.value.x,
                   point.value.y);
      }
    case MoveEvent(overTitle, at) =>
      var t := s.(pointerInside := at != None && at.value.inside && !overTitle);
      SameSent(s, t);
      if at != None {
        MoveToKeys(s, t, at.value.x, at.value.y);
      }
    case WheelEvent(up, notches) =>
      if InputAllowed(s) && s.last != None {
        NotchesEffect(s, if up then WheelUp else WheelDown, if notches == 0 then 1 else notches, s.last.value);
      }
  }

  lemma TypingKeys(s: Tab, e: Event, ks: Keysym)
    requires s.link == Up && IsHeldKind(ks) && (e.CharEvent? || e.SendClipboard?)
    ensures var t := Step(s, e).value; (ks in K(t) <==> ks in K(s)) && t.held == s.held && t.link == Up
  {
    hide K, Tap, Assembled;
    match e
    case CharEvent(wc, ctrl) =>
      var (cp, high) := Assembled(s.highSurrogate, wc, ctrl);
      var t := s.(highSurrogate := high);
      SameSent(s, t);
      if InputAllowed(s) && cp != None {
        TapEffect(t, KeysymFromCodePoint(cp.value));
      }
    case SendClipboard(cut, typeIt) =>
      var t := if cut && !s.viewOnly then s.(queue := s.queue + [CutText]) else s;
      Unheld(s, CutText);
      TapEffect(t, KeysymFromCodePoint('v' as int));
  }

  lemma OtherKeys(s: Tab, e: Event)
    requires s.link == Up && Step(s, e).Some? && (e.RequestRefresh? || e.TakePosted? || e.Deliver?)
    ensures var t := Step(s, e).value; K(t) == K(s) && (t.held == s.held || t.held == []) && t.link == Up
  {
    hide FarKeys, FarButtons, RequestSize;
    match e
    case RequestRefresh => Unheld(s, Refresh);
    case TakePosted(resize) =>
      var t := s.(posted := s.posted[1..]);
      var u := t.(held := [], buttons := {});
      SameSent(s, t);
      SameSent(s, u);
      SizeRequested(u);
      RequestSizeOnly(u);
    case Deliver =>
      var none: seq<Command> := [];
      assert s.wire + s.queue + none == s.wire + s.queue;
  }

  lemma LinkOver(s: Tab, e: Event)
    requires Step(s, e).Some? && (e.LinkDown? || e.WorkerEnds? || e.TunnelClosed?)
    ensures K(Step(s, e).value) == {}
  {
    hide FarKeys;
    NothingHeld();
  }

  /** A key that is down and that no record has stays so over every step but those, and of those only a press leaves it
    * down: that one records it again. Releasing everything and turning view-only are not among them. */
  lemma LostUntilStepIff(s: Tab, e: Event, ks: Keysym)
    requires s.link == Up && ks in K(s) && ks !in s.held && IsHeldKind(ks) && Step(s, e).Some?
    ensures var t := Step(s, e).value;
      && (ks in K(t) && ks !in t.held <==> !Ends(s, e, ks))
      && (ks !in K(t) <==> Ends(s, e, ks) && !(e.KeyEvent? && e.down))
      && (!Ends(s, e, ks) ==> t.link == Up)
  {
    hide FarKeys, FarButtons, K, OnKey, OnChar, OnClipboard, OnMove, OnButton, OnWheel, OnPosted, ReleaseAll,
         SecureAttention;
    hide Acts, KeysymFromVirtualKey;
    match e
    case KeyEvent(vk, down, ctrl, shift, right) => KeyEnds(s, vk, down, ctrl, shift, right, ks);
    case CharEvent(_, _) => TypingKeys(s, e, ks);
    case SendClipboard(_, _) => TypingKeys(s, e, ks);
    case ButtonEvent(_, _, _, _) => PointerKeys(s, e);
    case MoveEvent(_, _) => PointerKeys(s, e);
    case WheelEvent(_, _) => PointerKeys(s, e);
    case ReleaseAllEvent => ReleaseAllKeys(s);
    case ViewOnlyToggle =>
      ReleaseAllKeys(s);
      SameSent(if s.viewOnly then s else ReleaseAll(s), ToggleViewOnly(s));
    case CtrlAltDel =>
      if InputAllowed(s) {
        SecureAttentionEffect(s);
      } else {
        NoAttention(s);
      }
    case RequestRefresh => OtherKeys(s, e);
    case TakePosted(_) => OtherKeys(s, e);
    case Deliver => OtherKeys(s, e);
    case LinkDown => LinkOver(s, e);
    case WorkerEnds(_) => LinkOver(s, e);
    case TunnelClosed => LinkOver(s, e);
    case HandshakeTurn =>
    case LinkUp =>
  }

  ghost predicate LostThroughout(s: Tab, es: seq<Event>, ks: Keysym)
    decreases |es|
  {
    && ks in K(s) && ks !in s.held
    && (es != [] && Step(s, es[0]).Some? ==> LostThroughout(Step(s, es[0]).value, es[1..], ks))
  }

  predicate NothingEnds(s: Tab, es: seq<Event>, ks: Keysym)
    decreases |es|
  {
    es != [] && Step(s, es[0]).Some? ==> !Ends(s, es[0], ks) && NothingEnds(Step(s, es[0]).value, es[1..], ks)
  }

  /** Over any run: such a key is down and unrecorded throughout exactly when none of those steps is taken. */
  lemma {:induction false} LostThroughoutIff(s: Tab, es: seq<Event>, ks: Keysym)
    requires s.link == Up && ks in K(s) && ks !in s.held && IsHeldKind(ks)
    ensures LostThroughout(s, es, ks) <==> NothingEnds(s, es, ks)
    decreases |es|
  {
    hide K, Step, Ends;
    if es != [] && Step(s, es[0]).Some? {
      LostUntilStepIff(s, es[0], ks);
      var t := Step(s, es[0]).value;
      if !Ends(s, es[0], ks) {
        LostThroughoutIff(t, es[1..], ks);
      }
    }
  }

  /** Typing releases nothing that is held: text and held keys never share a keysym. */
  lemma TypingReleasesNothing(s: Tab, wc: nat, ctrl: bool)
    requires Inv(s)
    ensures K(OnChar(s, wc, ctrl)) == K(s) && B(OnChar(s, wc, ctrl)) == B(s) && OnChar(s, wc, ctrl).held == s.held
  {
    hide FarKeys, FarButtons, Tap, Assembled;
    var (cp, high) := Assembled(s.highSurrogate, wc, ctrl);
    var t := s.(highSurrogate := high);
    SameSent(s, t);
    if InputAllowed(s) && cp != None {
      TapEffect(t, KeysymFromCodePoint(cp.value));
    }
  }

  // ---- what reaches the far side --------------------------------------------------------------------------------

  lemma TapSends(s: Tab, ks: Keysym)
    requires !s.viewOnly
    ensures Tap(s, ks).queue == s.queue + [Key(true, ks), Key(false, ks)]
  {
    assert s.queue + [Key(true, ks)] + [Key(false, ks)] == s.queue + [Key(true, ks), Key(false, ks)];
  }

  /** A character outside the basic plane comes as two messages, and goes out as one press and release of its own
    * keysym. */
  lemma SurrogatePairIsTyped(s: Tab, cp: nat, ctrl: bool, ctrlAfter: bool)
    requires InputAllowed(s) && 0x10000 <= cp <= 0x10FFFF
    ensures var high, low := 0xD800 + (cp - 0x10000) / 0x400, 0xDC00 + (cp - 0x10000) % 0x400;
      var t := OnChar(OnChar(s, high, ctrl), low, ctrlAfter);
      t.queue == s.queue + [Key(true, 0x0100_0000 + cp), Key(false, 0x0100_0000 + cp)] && t.highSurrogate == 0
  {
    hide Tap;
    var k: nat := cp - 0x10000;
    var high: HighSurrogate, low := 0xD800 + k / 0x400, 0xDC00 + k % 0x400;
    var t := OnChar(s, high, ctrl);
    assert t == s.(highSurrogate := high);
    assert (high - 0xD800) * 0x400 + (low - 0xDC00) == k;
    assert Assembled(high, low, ctrlAfter) == (Some(cp), 0);
    TapSends(t.(highSurrogate := 0), 0x0100_0000 + cp);
    TapEffect(t.(highSurrogate := 0), 0x0100_0000 + cp);
  }

  /** One character of the basic plane that is text, and no control character under Control, goes out as its own
    * keysym. */
  lemma CharacterIsTyped(s: Tab, wc: nat, ctrl: bool)
    requires InputAllowed(s) && wc < 0x10000 && !(0xD800 <= wc <= 0xDFFF) && (ctrl ==> ' ' as nat <= wc)
    ensures var sent := if wc in {0x0D, 0x0A, 0x09, 0x08, 0x1B, 0x7F} then []
                        else [Key(true, KeysymFromCodePoint(wc)), Key(false, KeysymFromCodePoint(wc))];
      OnChar(s, wc, ctrl).queue == s.queue + sent
  {
    hide Tap, KeysymFromCodePoint;
    var t := s.(highSurrogate := s.highSurrogate);
    TapSends(t, KeysymFromCodePoint(wc));
  }

  /** A letter typed under Control arrives as a control character, and goes out as a press and release of the letter,
    * except for exactly five: those of h, i, j and m are the characters of Backspace, Tab and the two of Enter, which
    * are taken to have gone out as keys, and that of v is the application's own paste. */
  lemma ControlLetterIsTypedIff(s: Tab, n: nat)
    requires InputAllowed(s) && 1 <= n <= 26
    ensures var letter := 'a' as nat + n - 1;
      OnChar(s, n, true).queue ==
      s.queue + if letter as char in "hijmv" then [] else [Key(true, letter), Key(false, letter)]
  {
    hide Tap;
    var t := s.(highSurrogate := s.highSurrogate);
    TapSends(t, n + 0x60);
  }

  /** The letters that are lost so never went out as keys either. */
  lemma LostLettersAreNoKeys(s: Tab, letter: char, down: bool, right: bool)
    requires letter in "HIJM"
    ensures OnKey(s, letter as nat, down, true, false, right) == s
  {}

  /** The clipboard goes out as its text, and the letter of the paste chord is typed. */
  lemma ClipboardIsSent(s: Tab, cut: bool, typeIt: bool)
    requires !s.viewOnly
    ensures OnClipboard(s, cut, typeIt).queue ==
            s.queue + (if cut then [CutText] else [])
            + (if typeIt then [Key(true, 'v' as nat), Key(false, 'v' as nat)] else [])
  {}

  /** View-only is turned on and off in turn, and while it is on nothing the window does but a refresh is queued. */
  lemma ViewOnlyIsQuiet(s: Tab, e: Event)
    requires Step(s, e).Some?
    requires e.KeyEvent? || e.CharEvent? || e.ButtonEvent? || e.MoveEvent? || e.WheelEvent? || e.ReleaseAllEvent?
             || e.ViewOnlyToggle? || e.CtrlAltDel? || e.SendClipboard?
    ensures s.viewOnly ==> Step(s, e).value.queue == s.queue
    ensures Step(s, e).value.viewOnly == (s.viewOnly != e.ViewOnlyToggle?)
  {
    hide KeysymFromVirtualKey, KeysymFromCodePoint, Assembled, Without, PushPointer;
    if e.ReleaseAllEvent? || e.ViewOnlyToggle? {
      ReleaseIsQuiet(s, s.held);
    } else if e.WheelEvent? && s.last != None {
      NotchesKeepViewOnly(s, if e.up then WheelUp else WheelDown, if e.notches == 0 then 1 else e.notches,
                          s.last.value);
    }
  }

  lemma {:induction false} ReleaseIsQuiet(s: Tab, held: seq<Keysym>)
    ensures KeysUp(s, held).viewOnly == s.viewOnly && (s.viewOnly ==> KeysUp(s, held) == s)
  {
    if held != [] {
      ReleaseIsQuiet(s, held[..|held| - 1]);
    }
  }

  lemma {:induction false} NotchesKeepViewOnly(s: Tab, bit: Button, n: nat, at: (nat, nat))
    ensures Notches(s, bit, n, at).viewOnly == s.viewOnly
  {
    if n != 0 {
      NotchesKeepViewOnly(s, bit, n - 1, at);
    }
  }

  /** A motion goes out exactly when input is allowed, the position is new, and the pointer is over the picture or
    * drags: with a button held it is followed outside too. */
  lemma MotionIsSentIff(s: Tab, overTitle: bool, p: Point)
    ensures var t := OnMove(s, overTitle, Some(p));
      && t.Some? && t.value.pointerInside == (p.inside && !overTitle) && t.value.buttons == s.buttons
      && if InputAllowed(s) && ((p.inside && !overTitle) || s.buttons != {}) && s.last != Some((p.x, p.y)) then
           t.value.last == Some((p.x, p.y)) && t.value.queue != []
           && t.value.queue[|t.value.queue| - 1] == Pointer(s.buttons, p.x, p.y)
         else t.value.queue == s.queue && t.value.last == s.last
  {}

  /** A press goes out exactly over the picture, a release wherever the pointer is; neither over the title bar, nor when
    * input is not allowed. */
  lemma ButtonIsSentIff(s: Tab, down: bool, button: Button, overTitle: bool, p: Point)
    ensures var t := OnButton(s, down, button, overTitle, Some(p));
      t.Some? &&
      if !overTitle && InputAllowed(s) && (down ==> p.inside) then
        && t.value.buttons == (if down then s.buttons + {button} else s.buttons - {button})
        && t.value.last == Some((p.x, p.y)) && t.value.queue != []
        && t.value.queue[|t.value.queue| - 1] == Pointer(t.value.buttons, p.x, p.y)
      else t.value == s
  {}

  /** Ctrl+Alt+Del goes out as its three presses and then its three releases, the last pressed first. */
  lemma SecureAttentionSends(s: Tab)
    requires InputAllowed(s)
    ensures SecureAttention(s).queue == s.queue + [Key(true, CONTROL_L), Key(true, ALT_L), Key(true, DELETE),
                                                   Key(false, DELETE), Key(false, ALT_L), Key(false, CONTROL_L)]
  {}

  /** The messages of `n` notches of the wheel. */
  function Clicks(mask: set<Button>, bit: Button, n: nat, at: (nat, nat)): seq<Command> {
    if n == 0 then [] else Clicks(mask, bit, n - 1, at) + [Pointer(mask + {bit}, at.0, at.1), Pointer(mask, at.0, at.1)]
  }

  predicate EndsWith(q: seq<Command>, mask: set<Button>) {
    q != [] && q[|q| - 1].Pointer? && q[|q| - 1].mask == mask
  }

  lemma OneNotchIsSent(s: Tab, bit: Button, at: (nat, nat))
    requires !s.viewOnly && bit !in s.buttons && !EndsWith(s.queue, s.buttons + {bit})
    ensures SendPointer(SendPointer(s, s.buttons + {bit}, at.0, at.1), s.buttons, at.0, at.1) ==
      s.(queue := s.queue + [Pointer(s.buttons + {bit}, at.0, at.1), Pointer(s.buttons, at.0, at.1)])
  {
    var on, off := Pointer(s.buttons + {bit}, at.0, at.1), Pointer(s.buttons, at.0, at.1);
    assert bit in on.mask && bit !in off.mask;
    assert s.queue + [on] + [off] == s.queue + [on, off];
  }

  /** Every notch is two messages: coalescing never swallows one. */
  lemma {:induction false} EveryNotchIsSent(s: Tab, bit: Button, n: nat, at: (nat, nat))
    requires !s.viewOnly && bit !in s.buttons && !EndsWith(s.queue, s.buttons + {bit})
    ensures Notches(s, bit, n, at) == s.(queue := s.queue + Clicks(s.buttons, bit, n, at))
  {
    hide SendPointer;
    if n == 0 {
      assert s.queue + [] == s.queue;
    } else {
      EveryNotchIsSent(s, bit, n - 1, at);
      var t := Notches(s, bit, n - 1, at);
      ClicksEndUp(s.queue, s.buttons, bit, n - 1, at);
      OneNotchIsSent(t, bit, at);
      var pair := [Pointer(s.buttons + {bit}, at.0, at.1), Pointer(s.buttons, at.0, at.1)];
      assert s.queue + Clicks(s.buttons, bit, n - 1, at) + pair == s.queue + (Clicks(s.buttons, bit, n - 1, at) + pair);
    }
  }

  lemma ClicksEndUp(q: seq<Command>, mask: set<Button>, bit: Button, n: nat, at: (nat, nat))
    requires bit !in mask && !EndsWith(q, mask + {bit})
    ensures !EndsWith(q + Clicks(mask, bit, n, at), mask + {bit})
  {
    assert bit in mask + {bit};
    if n == 0 {
      assert q + [] == q;
    } else {
      var c := Clicks(mask, bit, n, at);
      assert (q + c)[|q + c| - 1] == c[|c| - 1] == Pointer(mask, at.0, at.1);
    }
  }

  /** The pointer goes where the mouse goes: after a move or a button that got through, the last thing queued is that
    * position with the buttons now held. */
  lemma PointerFollowsTheMouse(s: Tab, e: Event, p: Point)
    requires InputAllowed(s) && p.inside && Step(s, e).Some? && s.last != Some((p.x, p.y))
    requires e == MoveEvent(false, Some(p)) || (e.ButtonEvent? && !e.overTitle && e.point == Some(p))
    ensures var t := Step(s, e).value;
      && t.last == Some((p.x, p.y)) && t.queue != [] && t.queue[|t.queue| - 1] == Pointer(t.buttons, p.x, p.y)
      && t.buttons ==
         if e.MoveEvent? then s.buttons else if e.down then s.buttons + {e.button} else s.buttons - {e.button}
  {}

  // ---- the handlers as they run -----------------------------------------------------------------------------------

  lemma NoKeysUp(s: Tab)
    ensures KeysUp(s, []) == s
  {}

  lemma OneMoreUp(s: Tab, held: seq<Keysym>, i: nat)
    requires i < |held|
    ensures KeysUp(s, held[..i + 1]) == SendKey(KeysUp(s, held[..i]), false, held[i])
  {
    assert held[..i + 1][..i] == held[..i];
  }

  /** The tab and its session's queue. */
  class VncTab {
    var held: seq<Keysym>
    var buttons: set<Button>
    var last: Option<(nat, nat)>
    var pointerInside: bool
    var highSurrogate: HighSurrogate
    var viewOnly: bool
    var link: Link
    var alive: bool
    var queue: seq<Command>
    var posted: seq<Posted>
    ghost var wire: seq<Command>

    ghost function View(): Tab
      reads this
    {
      Tab(held, buttons, last, pointerInside, highSurrogate, viewOnly, link, alive, queue, wire, posted)
    }

    constructor (viewOnly: bool)
      ensures View() == Init(viewOnly)
    {
      held, buttons, last, pointerInside, highSurrogate := [], {}, None, false, 0;
      this.viewOnly, link, alive, queue, posted, wire := viewOnly, Down, true, [], [], [];
    }

    method QueueKey(down: bool, ks: Keysym)
      modifies this`queue
      ensures View() == SendKey(old(View()), down, ks)
    {
      if viewOnly {
        return;
      }
      queue := queue + [Key(down, ks)];
    }

    method QueuePointer(mask: set<Button>, x: nat, y: nat)
      modifies this`queue
      ensures View() == SendPointer(old(View()), mask, x, y)
    {
      if viewOnly {
        return;
      }
      if queue != [] && queue[|queue| - 1].Pointer? && queue[|queue| - 1].mask == mask {
        queue := queue[..|queue| - 1] + [Pointer(mask, x, y)];
      } else {
        queue := queue + [Pointer(mask, x, y)];
      }
    }

    /** A key of the keyboard; the answer is whether the tab consumed it. */
    method VncKey(vk: nat, down: bool, ctrl: bool, shift: bool, rightHeld: bool) returns (consumed: bool)
      modifies this`queue, this`held
      ensures View() == OnKey(old(View()), vk, down, ctrl, shift, rightHeld)
      ensures !consumed <==> (ctrl && shift) || vk == VK_LWIN || vk == VK_RWIN
    {
      hide KeysymFromVirtualKey;
      if (ctrl && shift) || vk == VK_LWIN || vk == VK_RWIN {
        return false;
      }
      if viewOnly || link != Up {
        return true;
      }
      if ctrl && !shift && vk == VK_V {
        return true;
      }
      var right := false;
      if vk == VK_SHIFT || vk == VK_CONTROL || vk == VK_MENU {
        right := rightHeld;
      }
      SideIgnored(vk, rightHeld);
      var ks := KeysymFromVirtualKey(vk, right);
      if ks == 0 {
        return true;
      }
      if down {
        QueueKey(true, ks);
        if ks !in held {
          held := held + [ks];
        }
      } else {
        QueueKey(false, ks);
        held := Without(held, ks);
      }
      return true;
    }

    method VncChar(wc: nat, ctrl: bool)
      modifies this`queue, this`highSurrogate
      ensures View() == OnChar(old(View()), wc, ctrl)
    {
      if viewOnly || link != Up {
        return;
      }
      var cp := wc;
      if 0xD800 <= wc <= 0xDBFF {
        highSurrogate := wc;
        return;
      }
      if 0xDC00 <= wc <= 0xDFFF {
        if highSurrogate == 0 {
          return;
        }
        cp := 0x10000 + (highSurrogate - 0xD800) * 0x400 + (wc - 0xDC00);
        highSurrogate := 0;
      }
      if cp in {0x0D, 0x0A, 0x09, 0x08, 0x1B, 0x7F} {
        return;
      }
      if cp < 0x20 && ctrl {
        if cp == 0x16 {
          return;
        }
        cp := cp + 0x60;
      }
      var ks := KeysymFromCodePoint(cp);
      QueueKey(true, ks);
      QueueKey(false, ks);
    }

    method VncMouseButton(down: bool, button: Button, overTitle: bool, point: Option<Point>)
      requires OnButton(View(), down, button, overTitle, point).Some?
      modifies this`queue, this`buttons, this`last
      ensures OnButton(old(View()), down, button, overTitle, point) == Some(View())
    {
      if overTitle || viewOnly || link != Up {
        return;
      }
      if down && (point == None || !point.value.inside) {
        return;
      }
      if down {
        buttons := buttons + {button};
      } else {
        buttons := buttons - {button};
      }
      QueuePointer(buttons, point.value.x, point.value.y);
      last := Some((point.value.x, point.value.y));
    }

    method VncMouseMove(overTitle: bool, point: Option<Point>)
      requires OnMove(View(), overTitle, point).Some?
      modifies this`queue, this`pointerInside, this`last
      ensures OnMove(old(View()), overTitle, point) == Some(View())
    {
      pointerInside := point != None && point.value.inside && !overTitle;
      if viewOnly || link != Up {
        return;
      }
      if !pointerInside && buttons == {} {
        return;
      }
      if last == Some((point.value.x, point.value.y)) {
        return;
      }
      QueuePointer(buttons, point.value.x, point.value.y);
      last := Some((point.value.x, point.value.y));
    }

    method VncWheel(up: bool, notches: nat)
      modifies this`queue
      ensures View() == OnWheel(old(View()), up, notches)
    {
      hide PushPointer;
      if viewOnly || link != Up || !pointerInside || last == None {
        return;
      }
      var bit := if up then WheelUp else WheelDown;
      var n := if notches == 0 then 1 else notches;
      for i := 0 to n
        invariant View() == Notches(old(View()), bit, i, last.value)
        invariant View() == old(View()).(queue := queue)
      {
        QueuePointer(buttons + {bit}, last.value.0, last.value.1);
        QueuePointer(buttons, last.value.0, last.value.1);
      }
    }

    /** Everything held comes up: on losing the focus, and before a desktop becomes view-only. */
    method VncReleaseAll()
      modifies this`queue, this`held, this`buttons, this`highSurrogate
      ensures View() == ReleaseAll(old(View()))
    {
      hide KeysUp, PushPointer;
      NoKeysUp(View());
      for i := 0 to |held|
        invariant View() == old(View()).(queue := queue)
        invariant View() == KeysUp(old(View()), held[..i])
      {
        OneMoreUp(old(View()), held, i);
        QueueKey(false, held[i]);
      }
      assert held[..|held|] == held;
      held := [];
      if buttons != {} && last != None {
        QueuePointer({}, last.value.0, last.value.1);
      }
      buttons := {};
      highSurrogate := 0;
    }

    method CommandViewOnly()
      modifies this`queue, this`held, this`buttons, this`highSurrogate, this`viewOnly
      ensures View() == ToggleViewOnly(old(View()))
    {
      var now := !viewOnly;
      if now {
        VncReleaseAll();
      }
      viewOnly := now;
    }

    method CommandCtrlAltDel()
      modifies this`queue
      ensures View() == SecureAttention(old(View()))
    {
      if viewOnly || link != Up {
        return;
      }
      QueueKey(true, CONTROL_L);
      QueueKey(true, ALT_L);
      QueueKey(true, DELETE);
      QueueKey(false, DELETE);
      QueueKey(false, ALT_L);
      QueueKey(false, CONTROL_L);
    }

    /** The guarded text goes over, then the keystroke that pastes it there. */
    method SendClipboardText(cut: bool, typeIt: bool)
      modifies this`queue
      ensures View() == OnClipboard(old(View()), cut, typeIt)
    {
      if cut && !viewOnly {
        queue := queue + [CutText];
      }
      if typeIt {
        QueueKey(true, KeysymFromCodePoint('v' as int));
        QueueKey(false, KeysymFromCodePoint('v' as int));
      }
    }

    /** One posted event; the caller loops until there is none. */
    method PumpEvent(resize: bool) returns (any: bool)
      modifies this`queue, this`held, this`buttons, this`posted
      ensures any <==> old(posted) != []
      ensures any ==> OnPosted(old(View()), resize) == Some(View())
      ensures !any ==> View() == old(View())
    {
      if posted == [] {
        return false;
      }
      var ev := posted[0];
      posted := posted[1..];
      match ev {
        case ConnectedEvent =>
          held := [];
          buttons := {};
          if resize {
            queue := WithoutResizes(queue) + [Resize];
          }
        case ClosedEvent =>
          held := [];
          buttons := {};
        case OtherEvent =>
      }
      return true;
    }
  }
}
