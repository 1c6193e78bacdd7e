/**
 * The bridge object: it owns the canvas size, the module reference, the
 * single animation-frame slot and a view of the module's linear memory, and
 * it forwards host events to the module.  Every call into the module is
 * appended to `trace`; the host's queue of this object's pending
 * animation-frame callbacks is the ghost set `pending`.
 */
module Bridge {
  import opened Wrappers
  import opened Events
  import opened Utf16
  import Utf8

  type byte = Utf8.byte

  /**
   * Module offsets reach the host as signed 32-bit numbers, so only those
   * below 2^31 arrive as the non-negative indices the host's memory view
   * accepts.
   */
  const OffsetLimit: nat := 0x8000_0000

  /** The size a resize-observer entry reports for the canvas. */
  datatype ContentRect = ContentRect(width: nat, height: nat)

  // ------------------------------------------------------- memory helpers

  /** Some byte at or after `p` is zero. */
  ghost predicate HasTerminator(mem: seq<byte>, p: nat)
  {
    exists j :: p <= j < |mem| && mem[j] == 0
  }

  /** The bytes from `p` up to, not including, the first zero at or after `p`. */
  ghost function CString(mem: seq<byte>, p: nat): (r: seq<byte>)
    requires HasTerminator(mem, p)
    ensures p + |r| < |mem| && mem[p + |r|] == 0
    ensures r == mem[p..p + |r|]
    ensures 0 !in r
    decreases |mem| - p
  {
    if mem[p] == 0 then []
    else
      assert HasTerminator(mem, p + 1) by {
        var j :| p <= j < |mem| && mem[j] == 0;
        assert j != p;
      }
      [mem[p]] + CString(mem, p + 1)
  }

  /** Memory after `bytes` are copied to offset `ptr`. */
  ghost function Written(mem: seq<byte>, ptr: nat, bytes: seq<byte>): (m: seq<byte>)
    requires ptr + |bytes| <= |mem|
    ensures |m| == |mem|
    ensures forall i :: ptr <= i < ptr + |bytes| ==> m[i] == bytes[i - ptr]
    ensures forall i :: 0 <= i < |mem| && !(ptr <= i < ptr + |bytes|) ==> m[i] == mem[i]
  {
    mem[..ptr] + bytes + mem[ptr + |bytes|..]
  }

  /** Memory that holds `bytes` at `ptr` and the old contents elsewhere is `Written`. */
  lemma WrittenPointwise(mem: seq<byte>, ptr: nat, bytes: seq<byte>, cur: seq<byte>)
    requires ptr + |bytes| <= |mem| == |cur|
    requires forall j :: 0 <= j < |cur| ==>
      cur[j] == if ptr <= j < ptr + |bytes| then bytes[j - ptr] else mem[j]
    ensures cur == Written(mem, ptr, bytes)
  {
    var w := Written(mem, ptr, bytes);
    assert forall j :: 0 <= j < |cur| ==> cur[j] == w[j];
  }

  /** A zero-free span ended by a zero is the C string at its start. */
  lemma CStringIsSpan(mem: seq<byte>, p: nat, end: nat)
    requires p <= end < |mem| && mem[end] == 0
    requires forall k :: p <= k < end ==> mem[k] != 0
    ensures HasTerminator(mem, p) && CString(mem, p) == mem[p..end]
  {
  }

  /**
   * Reading back a NUL-terminated encoding of a string that holds no U+0000
   * gives back exactly its encoding.  That span decodes to the string under
   * RFC 3629, and to the string less a leading U+FEFF under the host's
   * default decoder.
   */
  lemma ReadBackWritten(mem: seq<byte>, ptr: nat, s: string)
    requires '\0' !in s
    requires ptr + |Utf8.Encode(s)| + 1 <= |mem|
    ensures var m := Written(mem, ptr, Utf8.Encode(s) + [0]);
      HasTerminator(m, ptr) && CString(m, ptr) == Utf8.Encode(s) &&
      Utf8.Decode(CString(m, ptr)) == Some(s) &&
      Utf8.TextDecode(CString(m, ptr)) == Some(Utf8.StripBom(s))
  {
    var e := Utf8.Encode(s);
    var bytes := e + [0];
    var m := Written(mem, ptr, bytes);
    Utf8.EncodeNoZero(s);
    assert m[ptr + |e|] == bytes[|e|] == 0;
    assert forall k :: ptr <= k < ptr + |e| ==> m[k] == bytes[k - ptr] == e[k - ptr];
    CStringIsSpan(m, ptr, ptr + |e|);
    assert m[ptr..ptr + |e|] == e;
    assert CString(m, ptr) == e;
    Utf8.DecodeEncode(s);
    Utf8.TextDecodeEncode(s);
    assert Utf8.TextDecode(e) == Some(Utf8.StripBom(s));
  }

  /**
   * The string "\U{FEFF}A" written at `ptr` reads back as "A": the host's
   * default decoder loses the leading byte order mark.
   */
  lemma BomLostInRoundTrip(mem: seq<byte>, ptr: nat)
    requires ptr + |Utf8.Encode([Utf8.Bom, 'A'])| + 1 <= |mem|
    ensures var m := Written(mem, ptr, Utf8.Encode([Utf8.Bom, 'A']) + [0]);
      HasTerminator(m, ptr) && Utf8.TextDecode(CString(m, ptr)) == Some("A")
  {
    Utf8.BomDropped();
    ReadBackWritten(mem, ptr, [Utf8.Bom, 'A']);
    assert [Utf8.Bom, 'A'][1..] == "A";
  }

  // ------------------------------------------------------- call sequences

  /** One resize call per observer entry, in order. */
  function Resizes(entries: seq<ContentRect>): (calls: seq<Call>)
    ensures |calls| == |entries|
    ensures forall i :: 0 <= i < |entries| ==>
      calls[i] == Resize(entries[i].width, entries[i].height)
  {
    seq(|entries|, i requires 0 <= i < |entries| => Resize(entries[i].width, entries[i].height))
  }

  /** One text_input call per code point, in order. */
  function Texts(cps: seq<nat>): seq<Call>
  {
    seq(|cps|, i requires 0 <= i < |cps| => Text(cps[i]))
  }

  lemma AppendOne(a: seq<Call>, b: seq<Call>, c: Call)
    ensures (a + b) + [c] == a + (b + [c])
  {
  }

  /** Moving the head of the remainder onto the end of the prefix keeps the whole. */
  lemma ShiftOne(done: seq<nat>, mid: seq<nat>, cp: nat, rest: seq<nat>, whole: seq<nat>)
    requires done + mid == whole && mid == [cp] + rest
    ensures (done + [cp]) + rest == whole
  {
    assert done + ([cp] + rest) == (done + [cp]) + rest;
  }

  lemma TextsSnoc(cps: seq<nat>, cp: nat)
    ensures Texts(cps + [cp]) == Texts(cps) + [Text(cp)]
  {
    assert forall i :: 0 <= i < |cps| ==> Texts(cps + [cp])[i] == Texts(cps)[i];
  }

  // ------------------------------------------------------- the bridge

  class JaguarWasm {
    const canvasId: string
    const keyMap: map<string, nat>
    /** Whether the module reference is set. */
    var wasmModule: bool
    /** The module's linear memory. */
    var memory: array<byte>
    var animationFrameId: Option<nat>
    /** The handles of this object's callbacks queued with the host. */
    ghost var pending: set<nat>
    var isInitialized: bool
    /** The canvas size. */
    var width: nat
    var height: nat
    /** Every call made into the module, oldest first. */
    var trace: seq<Call>

    /**
     * The single-slot frame invariant: a queued callback is always the one
     * whose handle `animationFrameId` holds, so at most one is queued.
     */
    ghost predicate Valid()
      reads this
    {
      match animationFrameId
      case None => pending == {}
      case Some(id) => id > 0 && pending <= {id}
    }

    constructor(canvasId: string)
      ensures Valid()
      ensures this.canvasId == canvasId && keyMap == DefaultKeyMap
      ensures !wasmModule && !isInitialized && animationFrameId == None && pending == {}
      ensures trace == []
    {
      this.canvasId := canvasId;
      keyMap := DefaultKeyMap;
      wasmModule := false;
      memory := new byte[0];
      animationFrameId := None;
      pending := {};
      isInitialized := false;
      width, height := 0, 0;
      trace := [];
    }

    /** The constructor called with no argument: the default canvas id. */
    constructor Default()
      ensures Valid()
      ensures canvasId == "jaguar-canvas" && keyMap == DefaultKeyMap
      ensures !wasmModule && !isInitialized && animationFrameId == None && pending == {}
      ensures trace == []
    {
      canvasId := "jaguar-canvas";
      keyMap := DefaultKeyMap;
      wasmModule := false;
      memory := new byte[0];
      animationFrameId := None;
      pending := {};
      isInitialized := false;
      width, height := 0, 0;
      trace := [];
    }

    /** At most one of this object's frame callbacks is ever queued. */
    lemma AtMostOnePending()
      requires Valid()
      ensures |pending| <= 1
    {
      if animationFrameId.Some? {
        var id := animationFrameId.value;
        assert pending == {} || pending == {id};
      }
    }

    /**
     * The part of `init` after the module is instantiated: `mem` is its
     * memory, `w` by `h` the canvas size and `ptr` what its allocator
     * returns for the canvas id.
     */
    method Init(mem: array<byte>, w: nat, h: nat, ptr: nat)
      requires Valid()
      requires ptr < OffsetLimit && ptr + |Utf8.Encode(canvasId)| + 1 <= mem.Length
      modifies this, mem
      ensures Valid()
      ensures wasmModule && isInitialized && memory == mem && width == w && height == h
      ensures memory[..] == Written(old(mem[..]), ptr, Utf8.Encode(canvasId) + [0])
      ensures trace == old(trace) + [Malloc(|Utf8.Encode(canvasId)| + 1), Call.Init(ptr, w, h)]
      ensures animationFrameId == old(animationFrameId) && pending == old(pending)
    {
      width, height := w, h;
      wasmModule := true;
      memory := mem;
      var p := StringToWasm(canvasId, ptr);
      trace := trace + [Call.Init(p, width, height)];
      isInitialized := true;
    }

    /**
     * Writes the UTF-8 form of `s` and a terminating zero into linear
     * memory at `ptr`, the offset the module's allocator returned for the
     * request recorded in the trace.
     */
    method StringToWasm(s: string, ptr: nat) returns (p: nat)
      requires wasmModule
      requires ptr < OffsetLimit && ptr + |Utf8.Encode(s)| + 1 <= memory.Length
      modifies this`trace, memory
      ensures p == ptr
      ensures trace == old(trace) + [Malloc(|Utf8.Encode(s)| + 1)]
      ensures memory[..] == Written(old(memory[..]), ptr, Utf8.Encode(s) + [0])
    {
      var bytes := Utf8.Encode(s + "\0");
      Utf8.EncodeWithNul(s);
      trace := trace + [Malloc(|bytes|)];
      var i := 0;
      while i < |bytes|
        invariant 0 <= i <= |bytes|
        invariant trace == old(trace) + [Malloc(|bytes|)]
        invariant forall j :: 0 <= j < memory.Length ==>
          memory[j] == if ptr <= j < ptr + i then bytes[j - ptr] else old(memory[j])
      {
        memory[ptr + i] := bytes[i];
        i := i + 1;
      }
      WrittenPointwise(old(memory[..]), ptr, bytes, memory[..]);
      p := ptr;
    }

    /** Scans forward from `p` to the first zero byte. */
    method FindTerminator(p: nat) returns (end: nat)
      requires HasTerminator(memory[..], p)
      ensures p <= end < memory.Length && memory[end] == 0
      ensures forall k :: p <= k < end ==> memory[k] != 0
    {
      ghost var j :| p <= j < memory.Length && memory[..][j] == 0;
      end := p;
      while memory[end] != 0
        invariant p <= end <= j
        invariant forall k :: p <= k < end ==> memory[k] != 0
        decreases j - end
      {
        end := end + 1;
      }
    }

    /**
     * Reads the NUL-terminated UTF-8 string that starts at `p`, decoded as a
     * `TextDecoder` with no options decodes it: a leading U+FEFF is dropped.
     */
    method GetString(p: nat) returns (s: string)
      requires wasmModule && p < OffsetLimit
      requires HasTerminator(memory[..], p)
      requires Utf8.Decode(CString(memory[..], p)).Some?
      ensures Utf8.TextDecode(CString(memory[..], p)) == Some(s)
    {
      var end := FindTerminator(p);
      CStringIsSpan(memory[..], p, end);
      var bytes := memory[p..end];
      s := Utf8.TextDecode(bytes).value;
    }

    /**
     * Writing a string and reading it back at the returned offset gives the
     * string, except that a leading U+FEFF does not survive the trip.
     */
    method MarshalRoundTrip(s: string, ptr: nat) returns (r: string)
      requires wasmModule && '\0' !in s
      requires ptr < OffsetLimit && ptr + |Utf8.Encode(s)| + 1 <= memory.Length
      modifies this`trace, memory
      ensures (|s| == 0 || s[0] != Utf8.Bom) ==> r == s
      ensures |s| > 0 && s[0] == Utf8.Bom ==> [Utf8.Bom] + r == s
    {
      ghost var before := memory[..];
      var p := StringToWasm(s, ptr);
      ReadBackWritten(before, ptr, s);
      r := GetString(p);
    }

    /**
     * Schedules the frame callback the host registers under `handle`,
     * cancelling the currently queued one first.
     */
    method RequestFrame(handle: nat)
      requires Valid() && handle > 0
      modifies this`animationFrameId, this`pending
      ensures Valid()
      ensures animationFrameId == Some(handle) && pending == {handle}
    {
      if animationFrameId.Some? && animationFrameId.value != 0 {
        pending := pending - {animationFrameId.value};
      }
      animationFrameId := Some(handle);
      pending := pending + {handle};
    }

    /** The host runs the queued callback `handle`: it ticks the module if present. */
    method FireFrame(handle: nat)
      requires Valid() && handle in pending
      modifies this`pending, this`trace
      ensures Valid() && pending == {}
      ensures animationFrameId == old(animationFrameId)
      ensures trace == old(trace) + (if wasmModule then [Frame] else [])
    {
      pending := pending - {handle};
      if wasmModule {
        trace := trace + [Frame];
      }
    }

    /** Cancels any queued frame and drops the module. */
    method Destroy()
      requires Valid()
      modifies this`animationFrameId, this`pending, this`wasmModule, this`isInitialized
      ensures Valid()
      ensures animationFrameId == None && pending == {}
      ensures !wasmModule && !isInitialized
    {
      if animationFrameId.Some? && animationFrameId.value != 0 {
        pending := pending - {animationFrameId.value};
        animationFrameId := None;
      }
      wasmModule := false;
      isInitialized := false;
    }

    /** The resize-observer callback: every entry resizes the canvas, then is forwarded. */
    method Resized(entries: seq<ContentRect>)
      modifies this`width, this`height, this`trace
      ensures |entries| == 0 ==> width == old(width) && height == old(height)
      ensures |entries| > 0 ==>
        width == entries[|entries| - 1].width && height == entries[|entries| - 1].height
      ensures trace == old(trace) + (if wasmModule then Resizes(entries) else [])
    {
      for i := 0 to |entries|
        invariant i == 0 ==> width == old(width) && height == old(height)
        invariant i > 0 ==> width == entries[i - 1].width && height == entries[i - 1].height
        invariant trace == old(trace) + (if wasmModule then Resizes(entries[..i]) else [])
      {
        width := entries[i].width;
        height := entries[i].height;
        if wasmModule {
          trace := trace + [Resize(entries[i].width, entries[i].height)];
        }
        assert Resizes(entries[..i + 1]) == Resizes(entries[..i]) + [Resize(entries[i].width, entries[i].height)];
      }
      assert entries[..|entries|] == entries;
    }

    method MouseDown(e: MouseEvent, rect: Rect)
      modifies this`trace
      ensures trace == old(trace) + (if wasmModule then [PointerCall(PointerDown, e, rect)] else [])
    {
      if !wasmModule { return; }
      trace := trace + [Mouse(0, e.clientX - rect.left, e.clientY - rect.top, e.button)];
    }

    method MouseUp(e: MouseEvent, rect: Rect)
      modifies this`trace
      ensures trace == old(trace) + (if wasmModule then [PointerCall(PointerUp, e, rect)] else [])
    {
      if !wasmModule { return; }
      trace := trace + [Mouse(1, e.clientX - rect.left, e.clientY - rect.top, e.button)];
    }

    method MouseMove(e: MouseEvent, rect: Rect)
      modifies this`trace
      ensures trace == old(trace) + (if wasmModule then [PointerCall(PointerMove, e, rect)] else [])
    {
      if !wasmModule { return; }
      trace := trace + [Mouse(2, e.clientX - rect.left, e.clientY - rect.top, 0)];
    }

    /** Forwards a keydown; `prevented` tells whether the host default is suppressed. */
    method KeyDown(e: KeyboardEvent) returns (prevented: bool)
      modifies this`trace
      ensures trace == old(trace) +
        (if wasmModule then [Key(0, KeyCode(keyMap, e), ModifierMask(e))] else [])
      ensures prevented == (wasmModule && ShouldPreventDefault(e))
    {
      if !wasmModule { return false; }
      var code := KeyCode(keyMap, e);
      var modifiers := GetModifiers(e);
      trace := trace + [Key(0, code, modifiers)];
      prevented := ShouldPreventDefault(e);
    }

    /** Forwards a keyup; keyup never suppresses the host default. */
    method KeyUp(e: KeyboardEvent) returns (prevented: bool)
      modifies this`trace
      ensures trace == old(trace) +
        (if wasmModule then [Key(1, KeyCode(keyMap, e), ModifierMask(e))] else [])
      ensures !prevented
    {
      prevented := false;
      if !wasmModule { return; }
      var code := KeyCode(keyMap, e);
      var modifiers := GetModifiers(e);
      trace := trace + [Key(1, code, modifiers)];
    }

    /**
     * Forwards inserted text (`None` for a null `data`) one code point at a
     * time, joining surrogate pairs.
     */
    method TextInput(data: Option<seq<CodeUnit>>)
      modifies this`trace
      ensures trace == old(trace) +
        (if wasmModule && data.Some? then Texts(CodePoints(data.value)) else [])
    {
      if !wasmModule || data.None? || |data.value| == 0 { return; }
      EmitCodePoints(data.value);
    }

    /**
     * The `for...of` loop of the input listener: `rest` is what the string
     * iterator has still to yield; each turn emits one code point.
     */
    method EmitCodePoints(units: seq<CodeUnit>)
      modifies this`trace
      ensures trace == old(trace) + Texts(CodePoints(units))
    {
      var rest := units;
      ghost var done: seq<nat> := [];
      while rest != []
        invariant done + CodePoints(rest) == CodePoints(units)
        invariant trace == old(trace) + Texts(done)
        decreases |rest|
      {
        var cp, step := CodePointAt(rest), StepAt(rest);
        ShiftOne(done, CodePoints(rest), cp, CodePoints(rest[step..]), CodePoints(units));
        TextsSnoc(done, cp);
        AppendOne(old(trace), Texts(done), Text(cp));
        trace := trace + [Text(cp)];
        done := done + [cp];
        rest := rest[step..];
      }
      assert done + [] == done;
    }

    /** Forwards a wheel event; `prevented` tells whether the host default is suppressed. */
    method Wheel(e: WheelEvent, rect: Rect) returns (prevented: bool)
      modifies this`trace
      ensures trace == old(trace) + (if wasmModule then [WheelCall(e, rect)] else [])
      ensures prevented == wasmModule
    {
      if !wasmModule { return false; }
      trace := trace + [Scroll(e.clientX - rect.left, e.clientY - rect.top, e.deltaX, e.deltaY)];
      prevented := true;
    }
  }

  // ------------------------------------------------------- scenarios

  /**
   * Two requests with no tick between them: the first callback is cancelled,
   * only the second can fire, and firing it ticks the module once.
   */
  method SupersededRequest(b: JaguarWasm, first: nat, second: nat)
    requires b.Valid() && first > 0 && second > 0 && first != second
    modifies b
    ensures b.Valid() && b.pending == {}
    ensures b.trace == old(b.trace) + (if b.wasmModule then [Frame] else [])
  {
    b.RequestFrame(first);
    b.RequestFrame(second);
    assert first !in b.pending;
    b.FireFrame(second);
  }

  /**
   * After `destroy`, events and a fresh frame request reach nothing: no call
   * is made into the module, and only the new request is queued.
   */
  method EventsAfterDestroy(b: JaguarWasm, key: KeyboardEvent, move: MouseEvent, rect: Rect,
                            text: seq<CodeUnit>, handle: nat)
    requires b.Valid() && handle > 0
    modifies b
    ensures b.Valid() && b.pending == {}
    ensures b.trace == old(b.trace)
  {
    b.Destroy();
    var _ := b.KeyDown(key);
    b.MouseMove(move, rect);
    b.TextInput(Some(text));
    b.RequestFrame(handle);
    assert b.pending == {handle};
    b.FireFrame(handle);
  }
}
