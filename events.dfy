/**
 * The event translator of the bridge: the calls the bridge makes into the
 * module, the host event records it reads, and the pure translation from
 * one to the other (key-code resolution, the modifier bitmask, the
 * default-suppression predicate and canvas-relative coordinates).
 */
module Events {

  /** One call into the module's exports, with its arguments in protocol order. */
  datatype Call =
    | Init(canvasIdPtr: nat, width: nat, height: nat)
    | Malloc(size: nat)
    | Resize(width: nat, height: nat)
    | Mouse(kind: nat, x: int, y: int, button: int)
    | Key(kind: nat, code: nat, modifiers: nat)
    | Text(codePoint: nat)
    | Scroll(x: int, y: int, deltaX: int, deltaY: int)
    | Frame

  /** The canvas's bounding client rectangle; only its origin is read. */
  datatype Rect = Rect(left: int, top: int)

  datatype MouseEvent = MouseEvent(clientX: int, clientY: int, button: int)

  datatype WheelEvent = WheelEvent(clientX: int, clientY: int, deltaX: int, deltaY: int)

  /**
   * A keyboard event.  `keyCode` and `which` are the legacy numeric codes;
   * 0 stands for a missing one (both are falsy to the bridge).
   */
  datatype KeyboardEvent = KeyboardEvent(
    key: string, keyCode: nat, which: nat,
    shiftKey: bool, ctrlKey: bool, altKey: bool, metaKey: bool)

  datatype PointerKind = PointerDown | PointerUp | PointerMove

  /** The table of named keys the bridge is constructed with. */
  const DefaultKeyMap: map<string, nat> := map[
    "Escape" := 27, "Enter" := 13, "Tab" := 9, "Backspace" := 8, "Delete" := 46,
    "ArrowLeft" := 37, "ArrowUp" := 38, "ArrowRight" := 39, "ArrowDown" := 40,
    "Space" := 32]

  /** Keys whose default action is always suppressed on keydown. */
  const PreventKeys: seq<string> :=
    ["Tab", "Backspace", "Delete", "ArrowLeft", "ArrowRight", "ArrowUp", "ArrowDown"]

  /** Lower-case keys whose default action is suppressed on keydown with Ctrl held. */
  const ShortcutKeys: seq<string> := ["a", "c", "v", "x", "z", "y"]

  // ---------------------------------------------------------------- pointer

  /** The kind code the module receives: 0 for down, 1 for up, 2 for move. */
  function PointerCode(k: PointerKind): (c: nat)
    ensures c <= 2
    ensures (c == 2) == (k == PointerMove)
  {
    match k
    case PointerDown => 0
    case PointerUp => 1
    case PointerMove => 2
  }

  /** The mouse_event call for a pointer event on a canvas whose origin is `rect`. */
  function PointerCall(k: PointerKind, e: MouseEvent, rect: Rect): (c: Call)
    ensures c.Mouse? && c.kind == PointerCode(k)
    ensures c.x + rect.left == e.clientX && c.y + rect.top == e.clientY
    ensures c.button == if k == PointerMove then 0 else e.button
  {
    Mouse(PointerCode(k), e.clientX - rect.left, e.clientY - rect.top,
          if k == PointerMove then 0 else e.button)
  }

  /** The scroll_event call for a wheel event; the deltas pass through. */
  function WheelCall(e: WheelEvent, rect: Rect): (c: Call)
    ensures c.Scroll? && c.deltaX == e.deltaX && c.deltaY == e.deltaY
    ensures c.x + rect.left == e.clientX && c.y + rect.top == e.clientY
  {
    Scroll(e.clientX - rect.left, e.clientY - rect.top, e.deltaX, e.deltaY)
  }

  /** Each pointer kind has its own code. */
  lemma PointerCodesDistinct(k1: PointerKind, k2: PointerKind)
    ensures PointerCode(k1) == PointerCode(k2) <==> k1 == k2
  {
  }

  /**
   * Coordinates are canvas-relative: moving the event and the canvas by the
   * same offset leaves the call unchanged.
   */
  lemma PointerCallTranslationInvariant(k: PointerKind, e: MouseEvent, rect: Rect, dx: int, dy: int)
    ensures PointerCall(k, e.(clientX := e.clientX + dx, clientY := e.clientY + dy),
                        Rect(rect.left + dx, rect.top + dy)) == PointerCall(k, e, rect)
  {
  }

  // ---------------------------------------------------------------- keys

  /** A key of exactly one UTF-16 code unit. */
  predicate IsSingleUnit(key: string)
  {
    |key| == 1 && key[0] as int < 0x10000
  }

  /** Upper-casing restricted to ASCII letters. */
  function AsciiUpper(c: char): (u: char)
    ensures 'a' <= c <= 'z' ==> u as int == c as int - 32
    ensures !('a' <= c <= 'z') ==> u == c
  {
    if 'a' <= c <= 'z' then (c as int - 32) as char else c
  }

  function AsciiLowerChar(c: char): (l: char)
    ensures 'A' <= c <= 'Z' ==> l as int == c as int + 32
    ensures !('A' <= c <= 'Z') ==> l == c
  {
    if 'A' <= c <= 'Z' then (c as int + 32) as char else c
  }

  /** Lower-casing of a whole key, restricted to ASCII letters. */
  function AsciiLower(s: string): (l: string)
    ensures |l| == |s|
    ensures forall i :: 0 <= i < |s| ==> l[i] == AsciiLowerChar(s[i])
  {
    if s == [] then [] else [AsciiLowerChar(s[0])] + AsciiLower(s[1..])
  }

  /**
   * The key code sent with a key event: the table entry for a named key,
   * else the upper-cased character of a one-unit key, else the legacy
   * `keyCode`, else `which`, else 0.
   */
  function KeyCode(keyMap: map<string, nat>, e: KeyboardEvent): (r: nat)
    ensures r in keyMap.Values || r < 0x10000 || r == e.keyCode || r == e.which
    ensures !(e.key in keyMap) && !IsSingleUnit(e.key) ==> r == e.keyCode || r == e.which || r == 0
  {
    if e.key in keyMap then keyMap[e.key]
    else if IsSingleUnit(e.key) then AsciiUpper(e.key[0]) as nat
    else if e.keyCode != 0 then e.keyCode
    else if e.which != 0 then e.which
    else 0
  }

  /** The 4-bit modifier mask: shift, ctrl, alt and meta in bits 0 to 3. */
  function ModifierMask(e: KeyboardEvent): (m: nat)
    ensures m < 16
    ensures (m % 2 == 1) == e.shiftKey
    ensures ((m / 2) % 2 == 1) == e.ctrlKey
    ensures ((m / 4) % 2 == 1) == e.altKey
    ensures ((m / 8) % 2 == 1) == e.metaKey
  {
    (if e.shiftKey then 1 else 0) + (if e.ctrlKey then 2 else 0)
      + (if e.altKey then 4 else 0) + (if e.metaKey then 8 else 0)
  }

  /** Builds the modifier mask by or-ing in one bit per held modifier. */
  method GetModifiers(e: KeyboardEvent) returns (modifiers: nat)
    ensures modifiers == ModifierMask(e)
    ensures modifiers < 16
  {
    var m: bv8 := 0;
    if e.shiftKey { m := m | 1; }
    if e.ctrlKey { m := m | 2; }
    if e.altKey { m := m | 4; }
    if e.metaKey { m := m | 8; }
    modifiers := m as nat;
  }

  /** Whether keydown suppresses the host's default action for `e`. */
  predicate ShouldPreventDefault(e: KeyboardEvent)
    ensures ShouldPreventDefault(e) ==> e.key in PreventKeys || (e.ctrlKey && |e.key| == 1)
  {
    e.key in PreventKeys || (e.ctrlKey && AsciiLower(e.key) in ShortcutKeys)
  }

  /** A key present in the table yields its entry, whatever else the event holds. */
  lemma KeyCodeMapped(keyMap: map<string, nat>, e: KeyboardEvent)
    requires e.key in keyMap
    ensures KeyCode(keyMap, e) == keyMap[e.key]
    ensures forall e': KeyboardEvent :: e'.key == e.key ==> KeyCode(keyMap, e') == keyMap[e.key]
  {
  }

  /** Modifiers never influence the key code. */
  lemma KeyCodeIgnoresModifiers(keyMap: map<string, nat>, e: KeyboardEvent,
                                shift: bool, ctrl: bool, alt: bool, meta: bool)
    ensures KeyCode(keyMap, e.(shiftKey := shift, ctrlKey := ctrl, altKey := alt, metaKey := meta))
         == KeyCode(keyMap, e)
  {
  }

  /** The table has no one-character names, so it never shadows a character key. */
  lemma DefaultKeyMapNamesAreLong(key: string)
    requires key in DefaultKeyMap
    ensures |key| > 1
  {
  }

  /**
   * With the default table, a one-unit key yields the code of its upper-case
   * form, so a letter gives the same code in either case.
   */
  lemma DefaultKeyCodeSingleUnit(e: KeyboardEvent)
    requires IsSingleUnit(e.key)
    ensures KeyCode(DefaultKeyMap, e) == AsciiUpper(e.key[0]) as nat
    ensures 'a' <= e.key[0] <= 'z' ==> KeyCode(DefaultKeyMap, e) == e.key[0] as nat - 32
    ensures 'A' <= e.key[0] <= 'Z' ==> KeyCode(DefaultKeyMap, e) == e.key[0] as nat
  {
    if e.key in DefaultKeyMap {
      DefaultKeyMapNamesAreLong(e.key);
    }
  }

  /**
   * With the default table, a longer key that is not one of its names falls
   * back to `keyCode`, then `which`, then 0.
   */
  lemma DefaultKeyCodeLegacy(e: KeyboardEvent)
    requires e.key !in DefaultKeyMap && !IsSingleUnit(e.key)
    ensures KeyCode(DefaultKeyMap, e) == if e.keyCode != 0 then e.keyCode else e.which
  {
  }

  /**
   * The space bar reports the one-character key " ", not "Space", so the
   * table's "Space" entry is never the one used; the character rule gives
   * the same code.
   */
  lemma SpaceKeyCode(e: KeyboardEvent)
    requires e.key == " "
    ensures KeyCode(DefaultKeyMap, e) == DefaultKeyMap["Space"] == 32
  {
    DefaultKeyCodeSingleUnit(e);
  }

  /** A short string lower-cases to a given lower-case letter iff it is that letter in either case. */
  lemma AsciiLowerIsLetter(s: string, c: char)
    requires 'a' <= c <= 'z'
    ensures AsciiLower(s) == [c] <==> s == [c] || s == [(c as int - 32) as char]
  {
    if AsciiLower(s) == [c] {
      assert |s| == 1;
      assert AsciiLowerChar(s[0]) == c;
    }
  }

  /**
   * The suppression predicate spelled out: one of the seven navigation and
   * editing keys, or Ctrl held with a, c, v, x, z or y in either case.
   */
  lemma ShouldPreventDefaultIff(e: KeyboardEvent)
    ensures ShouldPreventDefault(e) <==>
      e.key in {"Tab", "Backspace", "Delete", "ArrowLeft", "ArrowRight", "ArrowUp", "ArrowDown"} ||
      (e.ctrlKey && e.key in {"a", "A", "c", "C", "v", "V", "x", "X", "z", "Z", "y", "Y"})
  {
    AsciiLowerIsLetter(e.key, 'a');
    AsciiLowerIsLetter(e.key, 'c');
    AsciiLowerIsLetter(e.key, 'v');
    AsciiLowerIsLetter(e.key, 'x');
    AsciiLowerIsLetter(e.key, 'z');
    AsciiLowerIsLetter(e.key, 'y');
  }

  /** Only the key and Ctrl matter; Meta (Command) plays no part. */
  lemma ShouldPreventDefaultDependsOnKeyAndCtrl(e1: KeyboardEvent, e2: KeyboardEvent)
    requires e1.key == e2.key && e1.ctrlKey == e2.ctrlKey
    ensures ShouldPreventDefault(e1) == ShouldPreventDefault(e2)
  {
  }

  /** Ctrl+a and ArrowLeft are suppressed; a bare a is not. */
  lemma ShouldPreventDefaultExamples()
    ensures ShouldPreventDefault(KeyboardEvent("a", 65, 65, false, true, false, false))
    ensures !ShouldPreventDefault(KeyboardEvent("a", 65, 65, false, false, false, false))
    ensures ShouldPreventDefault(KeyboardEvent("ArrowLeft", 37, 37, false, false, false, false))
  {
    ShouldPreventDefaultIff(KeyboardEvent("a", 65, 65, false, true, false, false));
    ShouldPreventDefaultIff(KeyboardEvent("a", 65, 65, false, false, false, false));
  }
}
