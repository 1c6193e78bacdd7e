# Jaguar WASM bridge — a verified model

Jaguar's browser bridge (`JaguarWasm` in `web/jaguar-wasm.js`) sits between the
browser and a WebAssembly module. It turns pointer, keyboard, text, wheel and
resize events into the module's fixed-arity exports (`jaguar_wasm_mouse_event`,
`jaguar_wasm_key_event`, `jaguar_wasm_text_input`, `jaguar_wasm_scroll_event`,
`jaguar_wasm_resize`). It keeps a single animation-frame slot that drives
`jaguar_wasm_frame`. It also copies NUL-terminated UTF-8 strings into and out of
the module's linear memory.

This project models that bridge in Dafny and proves what it promises.

- `wrappers.dfy`, module `Wrappers`: the `Option` type. It stands for a nullable host value.
- `utf8.dfy`, module `Utf8`: UTF-8 as section 3 of RFC 3629 defines it. `Encode` is what `TextEncoder` writes. `Decode` refuses overlong forms, surrogates and values above U+10FFFF, and is proved to be the exact inverse of the encoder, in both directions. `TextDecode` is what a `TextDecoder` built with no options returns: the WHATWG Encoding Standard has it drop one leading byte order mark (U+FEFF, bytes EF BB BF), because `ignoreBOM` defaults to false.
- `utf16.dfy`, module `Utf16`: the code points that `for...of` yields over a host string. A host string is a sequence of UTF-16 code units, and surrogate pairs are joined as in section 2.2 of RFC 2781. Iterating the UTF-16 form of any string is proved to yield exactly its scalar values.
- `events.dfy`, module `Events`: the event translator. It holds the `Call` datatype (one constructor per module export, plus `Malloc` for the allocator), the host event records, the `keyMap` table, key-code resolution, the modifier bitmask, the suppression predicate, and pointer and wheel coordinates.
- `bridge.dfy`, module `Bridge`: class `JaguarWasm`.
  - Its fields are the module reference (`wasmModule`), the module's linear memory (`memory: array<byte>`), `animationFrameId`, `isInitialized`, the canvas size and `trace`, the sequence of every call the bridge makes into the module.
  - The ghost field `pending` is the host's set of this object's queued frame callbacks.
  - `Valid()` is the single-slot invariant: any queued callback is the one `animationFrameId` names.
  - Each listener, the resize-observer callback, the frame callback, `requestFrame`, `destroy`, `stringToWasm` and `getString` is a method with a contract over that state.

Three behaviours of the source are easy to misread. The model follows the code in all three.

- The wheel listener returns before `preventDefault` when the module is absent (line 198). So the wheel suppresses the host default only while a module is present, not always. `Wheel` states `prevented == wasmModule`.
- The source has no allocation or decode error paths. `malloc`'s result is never checked (line 257). `memory.set` throws when out of range. The zero scan has no bound (line 266): when no zero byte lies at or after `p`, `memory[end]` past the end is `undefined`, `undefined !== 0` holds, and the loop never ends. The model states these as preconditions instead of error results: `HasTerminator` on `GetString` and `FindTerminator`, and the offset bounds on `StringToWasm`, `Init` and `MarshalRoundTrip`.
- Offsets cross from the module to the host as signed 32-bit numbers, so an offset at or above 2^31 arrives negative. `StringToWasm`, `Init`, `GetString` and `MarshalRoundTrip` require offsets below 2^31 (`Bridge.OffsetLimit`).

Nothing in this project is executed. Everything below is a proof obligation that Dafny checks.

## Model

| member | source | states |
|---|---|---|
| `Utf8.EncodeChar` | web/jaguar-wasm.js:255-256 | one scalar value takes 1 to 4 bytes; it takes one byte exactly when below U+0080, and then that byte is its value; every byte of a longer form is at least 0x80 |
| `Utf8.Encode` | web/jaguar-wasm.js:255-256 | a string's UTF-8 form takes at least one and at most four bytes per character |
| `Utf8.DecodeFirst` | web/jaguar-wasm.js:268 | whenever a leading sequence is accepted, the bytes it consumes are exactly the encoding of the character it returns |
| `Utf8.Decode` | web/jaguar-wasm.js:268 | whenever decoding succeeds, re-encoding the result gives back the input bytes |
| `Utf8.DecodeEncode` | web/jaguar-wasm.js:255-256 | decoding the encoding of any string gives that string |
| `Utf8.StripBom` | web/jaguar-wasm.js:268 | a string that starts with U+FEFF loses exactly that character; any other string is kept |
| `Utf8.TextDecode` | web/jaguar-wasm.js:268 | the default decoder succeeds exactly when RFC 3629 decoding does; for input that starts with EF BB BF, re-encoding its result gives the input less those three bytes, and for any other input it gives the input |
| `Utf8.TextDecodeEncode` | web/jaguar-wasm.js:255-268 | the default decoder gives back every encoded string that does not start with U+FEFF, and drops the U+FEFF from one that does |
| `Utf8.BomDropped` | web/jaguar-wasm.js:268 | "\uFEFFA" encodes to EF BB BF 41, which the default decoder reads as "A" |
| `Utf8.EncodeWithNul` | web/jaguar-wasm.js:256 | encoding `str + '\0'` gives the encoding of `str` followed by one zero byte |
| `Utf8.EncodeNoZero` | web/jaguar-wasm.js:256 | a string without U+0000 encodes to bytes that contain no zero |
| `Utf16.Combine` | web/jaguar-wasm.js:190-191 | a surrogate pair stands for a supplementary code point in U+10000..U+10FFFF |
| `Utf16.CodePointAt` | web/jaguar-wasm.js:191 | the front code point is at most U+10FFFF, and it is supplementary exactly when it takes two units |
| `Utf16.CodePoints` | web/jaguar-wasm.js:190-193 | iteration yields at most one code point per unit, and at least one for non-empty input |
| `Utf16.CodePointsInRange` | web/jaguar-wasm.js:190-191 | every code point iteration yields, including one from a lone surrogate, is at most U+10FFFF |
| `Utf16.CodePointsEncode` | web/jaguar-wasm.js:190-193 | iterating the UTF-16 form of any string yields exactly its scalar values, one per character, in order |
| `Utf16.ExampleFragmentUnits` | web/jaguar-wasm.js:190-193 | "é🙂a" is held as the four units E9 D83D DE42 61, the emoji as a surrogate pair |
| `Utf16.ExampleFragmentCodePoints` | web/jaguar-wasm.js:190-193 | the units E9 D83D DE42 61 yield the three code points U+00E9, U+1F642, U+0061 |
| `Events.PointerCode` | web/jaguar-wasm.js:120-148 | the kind code is at most 2, and it is 2 exactly for move |
| `Events.PointerCall` | web/jaguar-wasm.js:112-152 | a pointer call carries its kind's code and canvas-relative coordinates (x plus rect.left is clientX, and likewise for y); move always passes button 0 and the other kinds pass the event's button |
| `Events.PointerCodesDistinct` | web/jaguar-wasm.js:120-148 | down, up and move have pairwise distinct kind codes |
| `Events.PointerCallTranslationInvariant` | web/jaguar-wasm.js:115-117 | shifting the event and the canvas by the same offset leaves the call unchanged |
| `Events.WheelCall` | web/jaguar-wasm.js:200-208 | a scroll call carries canvas-relative coordinates and passes deltaX and deltaY through unchanged |
| `Events.ModifierMask` | web/jaguar-wasm.js:226-233 | the mask is below 16; bit 0 is set iff shift, bit 1 iff ctrl, bit 2 iff alt, bit 3 iff meta |
| `Events.GetModifiers` | web/jaguar-wasm.js:226-233 | or-ing in one bit per held modifier yields exactly `ModifierMask`, which is below 16 |
| `Events.KeyCode` | web/jaguar-wasm.js:214-224 | the code is a table value, a one-unit character code, `keyCode` or `which`; for a key that is neither in the table nor one unit, it is `keyCode`, `which` or 0 |
| `Events.KeyCodeMapped` | web/jaguar-wasm.js:215-217 | a key in the table yields its table entry, whatever the modifiers or legacy codes of the event |
| `Events.KeyCodeIgnoresModifiers` | web/jaguar-wasm.js:214-224 | changing any of the four modifier flags never changes the key code |
| `Events.DefaultKeyMapNamesAreLong` | web/jaguar-wasm.js:14-26 | every name in the constructor's table is longer than one character, so the table never shadows a character key |
| `Events.DefaultKeyCodeSingleUnit` | web/jaguar-wasm.js:219-221 | with the constructor's table, a one-unit key yields the code of its upper-cased character, so a letter gives the same code in either case |
| `Events.DefaultKeyCodeLegacy` | web/jaguar-wasm.js:223 | with the constructor's table, any other key yields `keyCode`, or `which` when `keyCode` is 0 or missing, and 0 when both are |
| `Events.SpaceKeyCode` | web/jaguar-wasm.js:24 | the space bar's key " " yields 32, the same code as the table's "Space" entry, which never matches a real key |
| `Events.ShouldPreventDefault` | web/jaguar-wasm.js:235-240 | the default is suppressed only for a navigation key or for a one-character key with ctrl held |
| `Events.ShouldPreventDefaultIff` | web/jaguar-wasm.js:235-240 | suppression holds iff the key is Tab, Backspace, Delete or an arrow key, or ctrl is held and the key is a, c, v, x, z or y in either case |
| `Events.ShouldPreventDefaultDependsOnKeyAndCtrl` | web/jaguar-wasm.js:235-240 | only the key and ctrl decide suppression; meta, shift and alt play no part |
| `Events.ShouldPreventDefaultExamples` | web/jaguar-wasm.js:235-240 | ctrl+a and ArrowLeft are suppressed; a bare a is not |
| `Bridge.CString` | web/jaguar-wasm.js:264-267 | the span read from p has no zero byte, lies inside memory, and is ended by a zero |
| `Bridge.Written` | web/jaguar-wasm.js:259 | after the copy, the bytes sit at [ptr, ptr+len) and every other byte is unchanged |
| `Bridge.CStringIsSpan` | web/jaguar-wasm.js:265-267 | the bytes from p to the first zero are exactly the C string at p |
| `Bridge.ReadBackWritten` | web/jaguar-wasm.js:254-269 | for every string without U+0000, reading back the string written with its NUL gives its encoding; RFC 3629 decoding gives the string, and the default decoder gives the string less a leading U+FEFF |
| `Bridge.BomLostInRoundTrip` | web/jaguar-wasm.js:254-269 | "\uFEFFA" written to memory reads back as "A" |
| `Bridge.JaguarWasm.constructor` | web/jaguar-wasm.js:7-27 | a new bridge has no module, no frame, is not initialized, has an empty trace and uses the constructor's key table |
| `Bridge.JaguarWasm.Default` | web/jaguar-wasm.js:7-27 | the constructor called with no argument uses the canvas id "jaguar-canvas" and starts in the same state as the constructor |
| `Bridge.JaguarWasm.AtMostOnePending` | web/jaguar-wasm.js:242-252 | under the slot invariant, at most one of this object's frame callbacks is queued |
| `Bridge.JaguarWasm.Init` | web/jaguar-wasm.js:72-78 | after instantiation, the canvas id is written to memory with its NUL, malloc is asked for its length plus one, then init is called with that pointer and the canvas size; the bridge is initialized |
| `Bridge.JaguarWasm.StringToWasm` | web/jaguar-wasm.js:254-261 | asks malloc for exactly len(utf8(s)) + 1 bytes, writes utf8(s) and a zero at the returned offset, leaves every other byte unchanged and returns the offset |
| `Bridge.JaguarWasm.FindTerminator` | web/jaguar-wasm.js:265-266 | the scan stops at the first zero byte at or after p |
| `Bridge.JaguarWasm.GetString` | web/jaguar-wasm.js:263-269 | the result is what the default decoder gives for the span from p to the first zero, so a leading U+FEFF is dropped |
| `Bridge.JaguarWasm.MarshalRoundTrip` | web/jaguar-wasm.js:254-269 | for any string without U+0000, getString at the offset stringToWasm returns gives back the string when it does not start with U+FEFF, and the string less that character when it does |
| `Bridge.JaguarWasm.RequestFrame` | web/jaguar-wasm.js:242-252 | any queued callback is cancelled first; afterwards exactly the new callback is queued and its handle is held; the slot invariant is kept |
| `Bridge.JaguarWasm.FireFrame` | web/jaguar-wasm.js:247-251 | firing the queued callback leaves none queued and calls frame exactly when the module is present; `animationFrameId` is not cleared |
| `Bridge.JaguarWasm.Destroy` | web/jaguar-wasm.js:271-284 | no callback is left queued, `animationFrameId` is null, the module is dropped and the bridge is not initialized |
| `Bridge.JaguarWasm.Resized` | web/jaguar-wasm.js:95-105 | each entry in order sets the canvas size, so the last entry's size remains; when the module is present, one resize call per entry is forwarded in order, otherwise none |
| `Bridge.JaguarWasm.MouseDown` | web/jaguar-wasm.js:112-124 | one kind-0 mouse call when the module is present, nothing otherwise |
| `Bridge.JaguarWasm.MouseUp` | web/jaguar-wasm.js:126-138 | one kind-1 mouse call when the module is present, nothing otherwise |
| `Bridge.JaguarWasm.MouseMove` | web/jaguar-wasm.js:140-152 | one kind-2 mouse call with button 0 when the module is present, nothing otherwise |
| `Bridge.JaguarWasm.KeyDown` | web/jaguar-wasm.js:155-171 | one kind-0 key call with the resolved code and the modifier mask when the module is present; the default is suppressed iff the module is present and the predicate holds |
| `Bridge.JaguarWasm.KeyUp` | web/jaguar-wasm.js:173-184 | one kind-1 key call when the module is present; keyup never suppresses the default |
| `Bridge.JaguarWasm.EmitCodePoints` | web/jaguar-wasm.js:190-193 | the loop makes one text_input call per code point the units yield, in order, and nothing else |
| `Bridge.JaguarWasm.TextInput` | web/jaguar-wasm.js:187-194 | when the module is present, one text_input call per code point of the data, in order, with a surrogate pair as one call; null or empty data, or no module, adds nothing |
| `Bridge.JaguarWasm.Wheel` | web/jaguar-wasm.js:197-211 | one scroll call when the module is present, nothing otherwise; the default is suppressed exactly when the module is present |
| `Bridge.SupersededRequest` | web/jaguar-wasm.js:242-252 | after two requests with no tick between them and then the second callback's tick, nothing is queued and the module is ticked once if present, not at all otherwise; the first callback is gone because `RequestFrame` leaves only its own handle queued |
| `Bridge.EventsAfterDestroy` | web/jaguar-wasm.js:271-284 | after destroy, key, pointer and text events and a new frame request followed by its tick add no call to the trace |

## Left out

- Module loading is not modelled. That covers `fetch` and `WebAssembly.instantiate` (lines 42-66), canvas lookup and creation (lines 32-39), the WebGL context probe (lines 89-92), `ResizeObserver` and `addEventListener` registration, `console.log`, and the `window` and DOMContentLoaded auto-initialisation (lines 288-297). These are DOM and network I/O. `Init` starts from an instantiated module, which comes in as a memory array, and from a canvas size.
- Bridge.JaguarWasm.Resized, MouseDown, MouseUp, MouseMove, KeyDown, KeyUp, TextInput, Wheel: each method models one call of one registered listener or observer callback, not one host event. Every `init` registers another listener per event type (line 68, bodies at lines 112-211) and another ResizeObserver (lines 95-107), and `destroy` (lines 271-284) removes none of them. So after `init` has run n times, even with a `destroy` in between, each host event runs n listeners, and the module receives each call n times. The model does not count registrations: after `Destroy` and a second `Init`, one `MouseDown` adds one call to the trace.
- The `env` imports `js_canvas_get_width`, `js_canvas_get_height`, `js_canvas_set_size` and `js_get_time` (lines 45-57) are not modelled. They read or write the canvas or the clock. `js_request_animation_frame` and `js_log` are modelled by `RequestFrame` and `GetString`; the log output itself is I/O.
- Inside the module, `frame` may call `js_request_animation_frame` again, synchronously inside `jaguar_wasm_frame`. The model treats that as a `RequestFrame` call after `FireFrame` returns. The two are equivalent: the fired handle has already left `pending` when the nested request runs, and only the callback it schedules runs on a later turn.
- Bridge.JaguarWasm.StringToWasm: offsets are taken to be below 2^31. At or above that, `malloc`'s result reaches the host negative, and `memory.set` at line 259 throws a RangeError.
- Bridge.JaguarWasm.Init: offsets are taken to be below 2^31. At or above that, the `stringToWasm` call at line 72 throws, and init is never called.
- Bridge.JaguarWasm.GetString: offsets are taken to be below 2^31. At or above that, the `js_log` offset arrives negative: the scan at lines 265-266 starts below index 0, and `memory.slice` at line 267 counts the negative start from the end of the buffer, so the bytes read are unrelated.
- Bridge.JaguarWasm.MarshalRoundTrip: offsets are taken to be below 2^31, where the source's `stringToWasm` throws.
- The host's `requestAnimationFrame` and `malloc` are calls into code the model cannot see. Their results are parameters: `handle`, which must be positive as the host guarantees, and `ptr`.
- The module can grow and replace its memory between calls; the model does not capture that. `memory` is one array.
- Floating-point values are modelled as integers, passed through unchanged. These are DOMRect offsets, `clientX`/`clientY`, wheel deltas and `contentRect` sizes. Because of this, the model does not capture the truncation when a fractional size is assigned to `canvas.width` or `canvas.height`.
- Events.KeyCode: case mapping is ASCII-only. `Events.KeyCode` upper-cases with `Events.AsciiUpper`, which maps ASCII letters only (line 220), so a non-ASCII letter keeps its own code, whereas JavaScript's `toUpperCase` would map it. For the suppression predicate ASCII lowering is exact, since no other character lower-cases to a, c, v, x, z or y.
- Invalid-input encoding is not modelled: `TextEncoder`'s replacement of lone surrogates and `TextDecoder`'s U+FFFD replacement. Marshaled strings are sequences of scalar values. `GetString` requires the span to be well-formed UTF-8.
- The `in` operator of line 215 also finds inherited properties such as `toString`. The model treats `keyMap` as a finite map instead.
- For `!e.data` (line 188), `None` stands for every absent value: null, and the `undefined` of an `input` event that is not an InputEvent, such as one from a `<select>` or a checkbox, which also reaches the listener on `document`. The empty string is `Some([])`. Both are falsy, and the model treats both the same way.

## Findings

| source | as written | input that shows it | evidently intended | confidence | as-written member | corrected member |
|---|---|---|---|---|---|---|
| web/jaguar-wasm.js:268 | `new TextDecoder()` has `ignoreBOM` false, so `getString` drops a leading U+FEFF | "\uFEFFA" is written as EF BB BF 41 00 and read back as "A" | `getString(stringToWasm(s)) == s` for every UTF-8-encodable `s` without U+0000, as with `new TextDecoder('utf-8', { ignoreBOM: true })` | medium, not executed | `Bridge.BomLostInRoundTrip` | `Bridge.ReadBackWritten` |

`GetString` and `MarshalRoundTrip` model the code as written, with `Utf8.TextDecode`. The corrected reading, a decoder that keeps the byte order mark, is `Utf8.Decode`. `Bridge.ReadBackWritten` proves the intended round trip for it, for every string without U+0000.
