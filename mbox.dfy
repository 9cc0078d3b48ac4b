/**
  The mailbox property interface of the Raspberry Pi firmware, as the kernel
  uses it to configure the framebuffer (mbox.c), and the text cursor of
  fb_print.

  The 36-word message buffer `mbox[]` is an array the operations write word
  by word; the firmware's reply is a parameter that overwrites the buffer at
  the moment of the call. `the_fb` is a value field that the operations
  reassign, and the physical pages of the framebuffer are reserved and freed
  through the page allocator model. `mboxlock`, the status-register polling
  and the cache maintenance of mbox_call are not modelled.
*/
module Mbox {
  import opened Alloc

  /** A 32-bit unsigned word of the message buffer. */
  newtype u32 = x: int | 0 <= x < 0x1_0000_0000

  const TWO_TO_32: int := 0x1_0000_0000

  /** Word 1 of a reply that the firmware has processed successfully. */
  const MBOX_RESPONSE: u32 := 0x8000_0000
  /** Word 1 of a request. */
  const MBOX_REQUEST: u32 := 0
  /** The tag that ends a message. */
  const MBOX_TAG_LAST: u32 := 0
  /** The property channel. */
  const MBOX_CH_PROP: bv8 := 8
  /** Words in `mbox[]`. */
  const MBOX_WORDS: nat := 36

  // ---------------------------------------------------------------------
  // The channel word written to MBOX_WRITE

  /** The 16-byte-aligned buffer address with the channel in the low nibble. */
  function ChannelWord(addr: bv32, ch: bv8): (r: bv32)
    ensures r & 0xF == (ch as bv32) & 0xF
    ensures r & !0xF == addr & !0xF
  {
    (addr & !0xF) | ((ch as bv32) & 0xF)
  }

  /** For an aligned buffer the channel word splits back into address and channel. */
  lemma ChannelWordSplits(addr: bv32, ch: bv8)
    requires addr & 0xF == 0 && ch < 16
    ensures ChannelWord(addr, ch) & !0xF == addr
    ensures ChannelWord(addr, ch) & 0xF == ch as bv32
    ensures ChannelWord(addr, ch) == addr + ch as bv32
  {
  }

  /** A call succeeds exactly when word 1 of the reply is MBOX_RESPONSE. */
  predicate Success(reply: seq<u32>)
    requires |reply| == MBOX_WORDS
  {
    reply[1] == MBOX_RESPONSE
  }

  // ---------------------------------------------------------------------
  // Property messages

  /**
    From word i on, `m` is a run of tags ended by MBOX_TAG_LAST in its last
    word: each tag is an id, a value-buffer size in bytes, a request size,
    and then exactly size / 4 value words.
  */
  predicate TagsFrom(m: seq<u32>, i: nat)
    decreases |m| - i
  {
    && i < |m|
    && if m[i] == MBOX_TAG_LAST then i == |m| - 1
       else
         && i + 3 <= |m|
         && m[i + 1] % 4 == 0
         && TagsFrom(m, i + 3 + m[i + 1] as int / 4)
  }

  /** A request: its byte size, the request code, then well-formed tags. */
  predicate WellFormed(m: seq<u32>)
  {
    && 3 <= |m| <= MBOX_WORDS
    && m[0] as int == 4 * |m|
    && m[1] == MBOX_REQUEST
    && TagsFrom(m, 2)
  }

  /** fb_detect_scr_dim: get the physical display size. */
  function DetectScrDimMsg(): seq<u32>
  {
    [8 * 4, MBOX_REQUEST, 0x40003, 8, 0, 0, 0, MBOX_TAG_LAST]
  }

  /** fb_set_voffsets: set the virtual offset. */
  function VoffsetsMsg(x: u32, y: u32): seq<u32>
  {
    [8 * 4, MBOX_REQUEST, 0x48009, 8, 8, x, y, MBOX_TAG_LAST]
  }

  /** fb_fini: release the framebuffer. */
  function ReleaseMsg(): seq<u32>
  {
    [6 * 4, MBOX_REQUEST, 0x48001, 0, 0, MBOX_TAG_LAST]
  }

  /** The framebuffer as the kernel keeps it (`struct fb_struct`). */
  datatype Fb = Fb(
    fb: u32,
    width: u32, height: u32,
    vwidth: u32, vheight: u32,
    scrWidth: u32, scrHeight: u32,
    depth: u32, isrgb: u32,
    offsetx: u32, offsety: u32,
    pitch: u32, size: u32)

  /**
    do_fb_init: set physical size, virtual size, virtual offset, depth and
    pixel order; allocate the buffer (4096-byte alignment); get the pitch.
  */
  function FbInitMsg(f: Fb): seq<u32>
  {
    [35 * 4, MBOX_REQUEST,
     0x48003, 8, 8, f.width, f.height,
     0x48004, 8, 8, f.vwidth, f.vheight,
     0x48009, 8, 8, f.offsetx, f.offsety,
     0x48005, 4, 4, f.depth,
     0x48006, 4, 4, f.isrgb,
     0x40001, 8, 8, 4096, 0,
     0x40008, 4, 4, 0,
     MBOX_TAG_LAST]
  }

  lemma DetectScrDimMsgWellFormed()
    ensures |DetectScrDimMsg()| == 8 && WellFormed(DetectScrDimMsg())
  {
    var m := DetectScrDimMsg();
    assert TagsFrom(m, 7);
  }

  lemma VoffsetsMsgWellFormed(x: u32, y: u32)
    ensures |VoffsetsMsg(x, y)| == 8 && WellFormed(VoffsetsMsg(x, y))
  {
    var m := VoffsetsMsg(x, y);
    assert TagsFrom(m, 7);
  }

  lemma ReleaseMsgWellFormed()
    ensures |ReleaseMsg()| == 6 && WellFormed(ReleaseMsg())
  {
    var m := ReleaseMsg();
    assert TagsFrom(m, 5);
  }

  lemma FbInitMsgWellFormed(f: Fb)
    ensures |FbInitMsg(f)| == 35 && WellFormed(FbInitMsg(f))
  {
    var m := FbInitMsg(f);
    FbInitLaterTags(f);
    assert TagsFrom(m, 17);
    assert TagsFrom(m, 12);
    assert TagsFrom(m, 7);
  }

  /** The pixel-order, buffer and pitch tags of the do_fb_init request. */
  lemma FbInitLaterTags(f: Fb)
    ensures TagsFrom(FbInitMsg(f), 21)
  {
    var m := FbInitMsg(f);
    assert TagsFrom(m, 34);
    assert TagsFrom(m, 30);
    assert TagsFrom(m, 25);
  }

  // ---------------------------------------------------------------------
  // Reading replies

  /** A 32-bit int argument as the unsigned word it is compared with. */
  function Word(x: int): (w: u32)
    requires -0x8000_0000 <= x < 0x8000_0000
  {
    (x % TWO_TO_32) as u32
  }

  /** The detected screen size, with the 1184x624 Waveshare HAT forced to 480x320. */
  function ScreenDims(w: u32, h: u32): (r: (u32, u32))
    ensures (w == 1184 || h == 624) ==> r == (480, 320)
    ensures !(w == 1184 || h == 624) ==> r == (w, h)
  {
    if w == 1184 || h == 624 then (480, 320) else (w, h)
  }

  /** A configured dimension if nonzero, otherwise the detected one. */
  function OrDefault(a: u32, d: u32): u32
  {
    if a != 0 then a else d
  }

  /** The framebuffer description after taking the detected screen size as default. */
  function Defaulted(f: Fb, w: u32, h: u32): (r: Fb)
  {
    f.(scrWidth := w, scrHeight := h,
       vwidth := OrDefault(f.vwidth, w), vheight := OrDefault(f.vheight, h),
       width := OrDefault(f.width, w), height := OrDefault(f.height, h))
  }

  /**
    Defaulting fills exactly the zero dimensions: nonzero ones are kept,
    zero ones take the detected size, and nothing else but the screen size
    changes.
  */
  lemma DefaultedFillsZeros(f: Fb, w: u32, h: u32)
    ensures var r := Defaulted(f, w, h);
      && (f.width != 0 ==> r.width == f.width) && (f.width == 0 ==> r.width == w)
      && (f.height != 0 ==> r.height == f.height) && (f.height == 0 ==> r.height == h)
      && (f.vwidth != 0 ==> r.vwidth == f.vwidth) && (f.vwidth == 0 ==> r.vwidth == w)
      && (f.vheight != 0 ==> r.vheight == f.vheight) && (f.vheight == 0 ==> r.vheight == h)
      && r.(width := f.width, height := f.height, vwidth := f.vwidth, vheight := f.vheight,
            scrWidth := f.scrWidth, scrHeight := f.scrHeight) == f
  {
  }

  /** Defaulting twice with the same screen size changes nothing more. */
  lemma DefaultedIdempotent(f: Fb, w: u32, h: u32)
    ensures Defaulted(Defaulted(f, w, h), w, h) == Defaulted(f, w, h)
  {
  }

  /** With a nonzero screen size every dimension ends up nonzero. */
  lemma DefaultedNonzero(f: Fb, w: u32, h: u32)
    requires w != 0 && h != 0
    ensures var r := Defaulted(f, w, h);
      r.width != 0 && r.height != 0 && r.vwidth != 0 && r.vheight != 0
  {
  }

  /**
    The description sent by do_fb_init: on a real board (PLAT_RPI3) a
    successful screen detection first supplies defaults; otherwise it is the
    current description.
  */
  function Prepared(f: Fb, hardware: bool, detectReply: seq<u32>): Fb
    requires |detectReply| == MBOX_WORDS
  {
    if hardware && Success(detectReply) then
      var d := ScreenDims(detectReply[5], detectReply[6]);
      Defaulted(f, d.0, d.1)
    else f
  }

  /**
    PGROUNDUP applied to a 32-bit unsigned size: the sum wraps modulo 2^32
    and the mask clears the low 12 bits (see RoundUpMask).
  */
  function RoundUp32(sz: u32): (r: u32)
    ensures r % 4096 == 0
    ensures sz <= 0xFFFF_F000 ==> sz <= r && r - sz < 4096
  {
    ((sz as int + 4095) % TWO_TO_32 / 4096 * 4096) as u32
  }

  /** Clearing the low 12 bits of a word rounds it down to a multiple of 4096. */
  lemma RoundUpMask(x: bv32)
    ensures (x + 4095) & !4095 == (x + 4095) / 4096 * 4096
  {
  }

  /** Clearing the top two bits of a word is the remainder modulo 2^30. */
  lemma LowBitsMask(x: bv32)
    ensures x & 0x3FFF_FFFF == x % 0x4000_0000
  {
  }

  /** The product of two unsigned ints, wrapped to 32 bits. */
  function Mul32(a: u32, b: u32): u32
  {
    (a as int * b as int % TWO_TO_32) as u32
  }

  /** do_fb_init accepts a reply that succeeded, echoed the depth and returned a buffer. */
  predicate Accepted(f: Fb, reply: seq<u32>)
    requires |reply| == MBOX_WORDS
  {
    Success(reply) && reply[20] == f.depth && reply[28] != 0
  }

  /** The buffer address as an ARM physical address (the bus alias bits cleared). */
  function FbAddress(reply: seq<u32>): (a: u32)
    requires |reply| == MBOX_WORDS
    ensures a <= 0x3FFF_FFFF
    ensures reply[28] < 0x4000_0000 ==> a == reply[28]
  {
    reply[28] % 0x4000_0000
  }

  /** The buffer size: pitch times virtual height, rounded up to whole pages. */
  function FbSize(reply: seq<u32>): (s: u32)
    requires |reply| == MBOX_WORDS
    ensures s % 4096 == 0
    ensures Mul32(reply[33], reply[11]) <= 0xFFFF_F000 ==>
              Mul32(reply[33], reply[11]) <= s && s - Mul32(reply[33], reply[11]) < 4096
  {
    RoundUp32(Mul32(reply[33], reply[11]))
  }

  /** The description after an accepted reply: what the firmware granted. */
  function Configured(f: Fb, reply: seq<u32>): Fb
    requires |reply| == MBOX_WORDS
  {
    f.(fb := FbAddress(reply),
       width := reply[5], height := reply[6],
       vwidth := reply[10], vheight := reply[11],
       depth := reply[20], isrgb := reply[24],
       pitch := reply[33], size := FbSize(reply))
  }

  /** The framebuffer region lies within the allocator's page map. */
  predicate FitsMap(alloc: PageAllocator, addr: u32, size: u32)
    reads alloc
  {
    RegionInMap(alloc.memMap.Length, alloc.lowMemory, addr as nat, size as nat)
  }

  // ---------------------------------------------------------------------
  // The mailbox and the framebuffer

  class Mailbox {
    /** mbox[36], the message buffer shared by request and reply. */
    const buf: array<u32>
    /** The physical address of `mbox[]` (16-byte aligned). */
    const addr: bv32
    /** Built for a real board (PLAT_RPI3) rather than QEMU. */
    const hardware: bool
    /** the_fb */
    var fbInfo: Fb
    /** The buffer as the firmware last received it. */
    var request: seq<u32>
    /** The word last written to MBOX_WRITE. */
    var written: bv32

    ghost predicate Valid()
    {
      buf.Length == MBOX_WORDS && addr & 0xF == 0
    }

    /** The message buffer is not the allocator's page map. */
    ghost predicate Apart(alloc: PageAllocator)
    {
      buf as object != alloc.memMap
    }

    /** The initial the_fb: 320x240 on QEMU, all dimensions taken from the screen on a board. */
    constructor (bufAddr: bv32, onHardware: bool)
      requires bufAddr & 0xF == 0
      ensures Valid() && fresh(buf) && addr == bufAddr && hardware == onHardware
      ensures fbInfo.fb == 0 && fbInfo.size == 0 && fbInfo.depth == 32 && fbInfo.isrgb == 0
      ensures !onHardware ==> fbInfo.(width := 320, height := 240, vwidth := 320, vheight := 240) == fbInfo
      ensures onHardware ==> fbInfo.width == 0 && fbInfo.height == 0 && fbInfo.vwidth == 0 && fbInfo.vheight == 0
    {
      buf := new u32[MBOX_WORDS];
      addr := bufAddr;
      hardware := onHardware;
      var d: u32 := if onHardware then 0 else 320;
      var e: u32 := if onHardware then 0 else 240;
      fbInfo := Fb(0, d, e, d, e, 0, 0, 32, 0, 0, 0, 0, 0);
      request := [];
      written := 0;
    }

    /**
      mbox_call(ch): hands the buffer to the firmware on channel `ch`; the
      reply overwrites the buffer, and the call succeeds iff word 1 is
      MBOX_RESPONSE.
    */
    method Call(ch: bv8, reply: seq<u32>) returns (ok: bool)
      requires Valid() && |reply| == MBOX_WORDS
      modifies buf, `request, `written
      ensures request == old(buf[..]) && |request| == MBOX_WORDS
      ensures written == ChannelWord(addr, ch)
      ensures buf[..] == reply
      ensures ok == Success(reply)
    {
      written := ChannelWord(addr, ch);
      request := buf[..];
      var i := 0;
      while i < MBOX_WORDS
        invariant i <= MBOX_WORDS
        invariant buf[..i] == reply[..i]
        modifies buf
      {
        buf[i] := reply[i];
        i := i + 1;
      }
      ok := buf[1] == MBOX_RESPONSE;
    }

    /**
      fb_detect_scr_dim(&w, &h): -1 when the call fails (w and h untouched),
      otherwise 0 with the reported size, 1184x624 forced to 480x320.
    */
    method DetectScrDim(w0: u32, h0: u32, reply: seq<u32>) returns (ret: int, w: u32, h: u32)
      requires Valid() && |reply| == MBOX_WORDS
      modifies buf, `request, `written
      ensures |request| == MBOX_WORDS
      ensures request[..8] == DetectScrDimMsg()
      ensures buf[..] == reply
      ensures ret == 0 <==> Success(reply)
      ensures ret != 0 ==> ret == -1 && w == w0 && h == h0
      ensures ret == 0 ==> (w, h) == ScreenDims(reply[5], reply[6])
    {
      Put(DetectScrDimMsg());
      var ok := Call(MBOX_CH_PROP, reply);
      if !ok {
        return -1, w0, h0;
      }
      w, h := buf[5], buf[6];
      if w == 1184 || h == 624 {
        w, h := 480, 320;
      }
      return 0, w, h;
    }

    /** fb_set_voffsets(x, y): 0 only when the reply echoes both offsets, else -1. */
    method SetVoffsets(offsetx: int, offsety: int, reply: seq<u32>) returns (ret: int)
      requires Valid() && |reply| == MBOX_WORDS
      requires -0x8000_0000 <= offsetx < 0x8000_0000 && -0x8000_0000 <= offsety < 0x8000_0000
      modifies buf, `request, `written
      ensures |request| == MBOX_WORDS
      ensures request[..8] == VoffsetsMsg(Word(offsetx), Word(offsety))
      ensures buf[..] == reply
      ensures ret == 0 <==> Success(reply) && reply[5] == Word(offsetx) && reply[6] == Word(offsety)
      ensures ret != 0 ==> ret == -1
    {
      Put(VoffsetsMsg(Word(offsetx), Word(offsety)));
      var ok := Call(MBOX_CH_PROP, reply);
      if !ok {
        return -1;
      }
      if buf[5] != Word(offsetx) || buf[6] != Word(offsety) {
        return -1;
      }
      return 0;
    }

    /** Stores a request into the buffer, word by word from word 0. */
    method Put(m: seq<u32>)
      requires Valid() && |m| <= MBOX_WORDS
      modifies buf
      ensures buf[..] == m + old(buf[|m|..])
    {
      var i := 0;
      while i < |m|
        invariant i <= |m|
        invariant forall j :: 0 <= j < i ==> buf[j] == m[j]
        invariant forall j :: i <= j < buf.Length ==> buf[j] == old(buf[j])
      {
        buf[i] := m[i];
        i := i + 1;
      }
    }

    /** The screen detection step of do_fb_init (PLAT_RPI3 builds only). */
    method DetectDefaults(detectReply: seq<u32>)
      requires Valid() && |detectReply| == MBOX_WORDS
      modifies buf, `request, `written, `fbInfo
      ensures fbInfo == Prepared(old(fbInfo), hardware, detectReply)
    {
      if hardware {
        var r, w, h := DetectScrDim(fbInfo.scrWidth, fbInfo.scrHeight, detectReply);
        if r == 0 {
          fbInfo := Defaulted(fbInfo, w, h);
        }
      }
    }

    /**
      The accepted branch of do_fb_init: the buffer address loses its bus
      alias bits, the description takes the granted values, and the
      framebuffer pages are reserved (0 on success, -1 otherwise).
    */
    method TakeReply(alloc: PageAllocator, reply: seq<u32>) returns (ret: int)
      requires Valid() && alloc.Valid()
      requires |reply| == MBOX_WORDS && buf[..] == reply && Apart(alloc)
      requires FitsMap(alloc, FbAddress(reply), FbSize(reply))
      modifies buf, `fbInfo, alloc.memMap, alloc`used
      ensures alloc.Valid()
      ensures fbInfo == Configured(old(fbInfo), reply)
      ensures var r := RangeOp(old(alloc.State()), alloc.lowMemory, FbAddress(reply) as nat, FbSize(reply) as nat, 1);
                ret == (if r.0 == 0 then 0 else -1) && alloc.State() == r.1
    {
      buf[28] := buf[28] % 0x4000_0000;
      var pitch := buf[33];
      fbInfo := fbInfo.(fb := buf[28], width := buf[5], height := buf[6],
                        vwidth := buf[10], vheight := buf[11],
                        depth := buf[20], isrgb := buf[24], pitch := pitch,
                        size := RoundUp32(Mul32(pitch, buf[11])));
      var r := alloc.ReservePhysRegion(buf[28] as nat, fbInfo.size as nat);
      ret := if r != 0 then -1 else 0;
    }

    /**
      do_fb_init(&the_fb): -2 when the firmware does not grant the requested
      mode (description as sent, no pages touched); otherwise the
      description takes the granted values and the framebuffer pages are
      reserved: 0 on success, -1 when some page was already reserved.
    */
    method DoFbInit(alloc: PageAllocator, detectReply: seq<u32>, reply: seq<u32>)
      returns (ret: int, ghost sent: Fb)
      requires Valid() && alloc.Valid() && Apart(alloc)
      requires |detectReply| == MBOX_WORDS && |reply| == MBOX_WORDS
      requires Accepted(Prepared(fbInfo, hardware, detectReply), reply) ==>
                 FitsMap(alloc, FbAddress(reply), FbSize(reply))
      modifies this, buf, alloc.memMap, alloc`used
      ensures Valid() && alloc.Valid()
      ensures sent == Prepared(old(fbInfo), hardware, detectReply)
      ensures |request| == MBOX_WORDS
      ensures request[..35] == FbInitMsg(sent)
      ensures !Accepted(sent, reply) ==>
                ret == -2 && fbInfo == sent && alloc.State() == old(alloc.State())
      ensures Accepted(sent, reply) ==>
                && fbInfo == Configured(sent, reply)
                && var r := RangeOp(old(alloc.State()), alloc.lowMemory, FbAddress(reply) as nat, FbSize(reply) as nat, 1);
                   ret == (if r.0 == 0 then 0 else -1) && alloc.State() == r.1
    {
      DetectDefaults(detectReply);
      sent := fbInfo;
      Put(FbInitMsg(fbInfo));
      var ok := Call(MBOX_CH_PROP, reply);
      if !(ok && buf[20] == fbInfo.depth && buf[28] != 0) {
        return -2, sent;
      }
      ret := TakeReply(alloc, reply);
    }

    /**
      fb_fini: -1 with nothing changed when there is no framebuffer;
      otherwise the release request is sent (its outcome ignored), the pages
      are freed, and the buffer pointer cleared: -2 when some page was not
      reserved, else 0.
    */
    method FbFini(alloc: PageAllocator, reply: seq<u32>) returns (ret: int)
      requires Valid() && alloc.Valid() && Apart(alloc) && |reply| == MBOX_WORDS
      requires fbInfo.fb != 0 && fbInfo.size != 0 ==> FitsMap(alloc, fbInfo.fb, fbInfo.size)
      modifies this, buf, alloc.memMap, alloc`used
      ensures Valid() && alloc.Valid()
      ensures old(fbInfo.fb) == 0 || old(fbInfo.size) == 0 ==>
                ret == -1 && fbInfo == old(fbInfo) && alloc.State() == old(alloc.State())
      ensures old(fbInfo.fb) != 0 && old(fbInfo.size) != 0 ==>
                && |request| == MBOX_WORDS && request[..6] == ReleaseMsg()
                && fbInfo == old(fbInfo).(fb := 0)
                && var r := RangeOp(old(alloc.State()), alloc.lowMemory, old(fbInfo.fb) as nat, old(fbInfo.size) as nat, 0);
                   ret == (if r.0 == 0 then 0 else -2) && alloc.State() == r.1
    {
      if fbInfo.fb == 0 || fbInfo.size == 0 {
        return -1;
      }
      Put(ReleaseMsg());
      var ok := Call(MBOX_CH_PROP, reply);
      var r := alloc.FreePhysRegion(fbInfo.fb as nat, fbInfo.size as nat);
      ret := if r != 0 then -2 else 0;
      fbInfo := fbInfo.(fb := 0);
    }

    /**
      fb_init followed by fb_fini: when initialisation reserved a nonempty
      framebuffer, finalisation frees it and the page allocator is back to
      where it started.
    */
    method InitThenFini(alloc: PageAllocator, detectReply: seq<u32>, reply: seq<u32>, releaseReply: seq<u32>)
      returns (r1: int, r2: int)
      requires Valid() && alloc.Valid() && Apart(alloc)
      requires |detectReply| == MBOX_WORDS && |reply| == MBOX_WORDS && |releaseReply| == MBOX_WORDS
      requires Accepted(Prepared(fbInfo, hardware, detectReply), reply) ==>
                 FitsMap(alloc, FbAddress(reply), FbSize(reply))
      requires fbInfo.fb != 0 && fbInfo.size != 0 ==> FitsMap(alloc, fbInfo.fb, fbInfo.size)
      modifies this, buf, alloc.memMap, alloc`used
      ensures r1 == 0 && fbInfo.size != 0 && FbAddress(reply) != 0 ==>
                r2 == 0 && alloc.State() == old(alloc.State())
    {
      ghost var s0 := alloc.State();
      ghost var sent;
      r1, sent := DoFbInit(alloc, detectReply, reply);
      ghost var fb1 := fbInfo;
      r2 := FbFini(alloc, releaseReply);
      if r1 == 0 && fb1.size != 0 && FbAddress(reply) != 0 {
        ReserveThenFreeRestores(s0, alloc.lowMemory, FbAddress(reply) as nat, FbSize(reply) as nat);
      }
    }
  }

  // ---------------------------------------------------------------------
  // fb_print: the text cursor

  // Characters are bytes (`unsigned char`), as in the page map.
  const CR: byte := 13
  const LF: byte := 10

  /** The PC Screen Font header fields that fb_print uses. */
  datatype Font = Font(headersize: nat, numglyph: nat, bytesperglyph: nat, height: nat, width: nat)

  /** The glyph drawn for character c: c itself if the font has it, else glyph 0. */
  function GlyphIndex(c: byte, f: Font): (g: nat)
    ensures f.numglyph > 0 ==> g < f.numglyph
    ensures g != 0 ==> g == c as nat
  {
    if (c as nat) < f.numglyph then c as nat else 0
  }

  predicate IsBreak(c: byte)
  {
    c == CR || c == LF
  }

  /** The cursor after one character. */
  function Advance(p: (int, int), c: byte, f: Font): (int, int)
  {
    if c == CR then (0, p.1)
    else if c == LF then (0, p.1 + f.height)
    else (p.0 + f.width + 1, p.1)
  }

  /** The cursor after the whole string, character by character. */
  function Cursor(x: int, y: int, s: seq<byte>, f: Font): (int, int)
    decreases |s|
  {
    if |s| == 0 then (x, y) else Advance(Cursor(x, y, s[..|s| - 1], f), s[|s| - 1], f)
  }

  /** The glyphs drawn for the string, in order (breaks draw nothing). */
  function Glyphs(s: seq<byte>, f: Font): (g: seq<nat>)
    ensures |g| <= |s|
    ensures forall i :: 0 <= i < |g| ==> g[i] < f.numglyph || g[i] == 0
    decreases |s|
  {
    if |s| == 0 then []
    else Glyphs(s[..|s| - 1], f) + (if IsBreak(s[|s| - 1]) then [] else [GlyphIndex(s[|s| - 1], f)])
  }

  function Count(s: seq<byte>, c: byte): nat
    decreases |s|
  {
    if |s| == 0 then 0 else Count(s[..|s| - 1], c) + (if s[|s| - 1] == c then 1 else 0)
  }

  predicate HasBreak(s: seq<byte>)
  {
    exists i :: 0 <= i < |s| && IsBreak(s[i])
  }

  /** Characters after the last line break (all of them when there is none). */
  function TailLength(s: seq<byte>): (n: nat)
    ensures n <= |s|
    decreases |s|
  {
    if |s| == 0 then 0
    else if IsBreak(s[|s| - 1]) then 0
    else TailLength(s[..|s| - 1]) + 1
  }

  /** Each new line moves the cursor down by one font height; nothing else moves it vertically. */
  lemma {:induction false} CursorRow(x: int, y: int, s: seq<byte>, f: Font)
    ensures Cursor(x, y, s, f).1 == y + f.height * Count(s, LF)
    decreases |s|
  {
    if |s| > 0 {
      CursorRow(x, y, s[..|s| - 1], f);
    }
  }

  /**
    The column is the width of the characters after the last break, counted
    from 0 after a break and from the starting column otherwise.
  */
  lemma {:induction false} CursorColumn(x: int, y: int, s: seq<byte>, f: Font)
    ensures Cursor(x, y, s, f).0 == (if HasBreak(s) then 0 else x) + (f.width + 1) * TailLength(s)
    decreases |s|
  {
    if |s| > 0 {
      var p := s[..|s| - 1];
      CursorColumn(x, y, p, f);
      assert HasBreak(s) <==> HasBreak(p) || IsBreak(s[|s| - 1]) by {
        if HasBreak(p) {
          var i :| 0 <= i < |p| && IsBreak(p[i]);
          assert s[i] == p[i];
        }
        if HasBreak(s) && !IsBreak(s[|s| - 1]) {
          var i :| 0 <= i < |s| && IsBreak(s[i]);
          assert p[i] == s[i];
        }
      }
    }
  }

  /** Every drawn character that is not a break produces exactly one glyph. */
  lemma {:induction false} GlyphCount(s: seq<byte>, f: Font)
    ensures |Glyphs(s, f)| == |s| - Count(s, CR) - Count(s, LF)
    decreases |s|
  {
    if |s| > 0 {
      GlyphCount(s[..|s| - 1], f);
    }
  }

  /**
    fb_print(&x, &y, s): moves the cursor over the NUL-terminated string
    `s` (given without its terminator) and draws one glyph per printable
    character.
  */
  method FbPrint(x0: int, y0: int, s: seq<byte>, f: Font) returns (x: int, y: int, glyphs: seq<nat>)
    requires forall i :: 0 <= i < |s| ==> s[i] != 0
    ensures (x, y) == Cursor(x0, y0, s, f)
    ensures glyphs == Glyphs(s, f)
  {
    x, y, glyphs := x0, y0, [];
    var i := 0;
    while i < |s|
      invariant i <= |s|
      invariant (x, y) == Cursor(x0, y0, s[..i], f)
      invariant glyphs == Glyphs(s[..i], f)
    {
      assert s[..i + 1][..i] == s[..i];
      var g := if (s[i] as nat) < f.numglyph then s[i] as nat else 0;
      if s[i] == CR {
        x := 0;
      } else if s[i] == LF {
        x := 0;
        y := y + f.height;
      } else {
        glyphs := glyphs + [g];
        x := x + (f.width + 1);
      }
      i := i + 1;
    }
    assert s[..i] == s;
  }

  // ---------------------------------------------------------------------
  // fb_showpicture: cropping and centring the logo

  /** Where the logo goes: its cropped size, its byte offset and the text position below it. */
  datatype Placement = Placement(w: nat, h: nat, left: nat, top: nat, offset: nat, textX: nat, textY: nat)

  function Min(a: nat, b: nat): nat
  {
    if a < b then a else b
  }

  /**
    The logo cropped to the virtual screen and centred horizontally and
    vertically. The text starts at the logo's left edge on row
    vheight/2 + h/2: the row just below the logo, or the logo's own last
    row when both vheight and h are odd.
  */
  function Crop(vwidth: nat, vheight: nat, pitch: nat, pixelSize: nat, imgW: nat, imgH: nat): (p: Placement)
    ensures p.w <= vwidth && p.w <= imgW && (p.w == vwidth || p.w == imgW)
    ensures p.h <= vheight && p.h <= imgH && (p.h == vheight || p.h == imgH)
    ensures p.left + p.w <= vwidth && vwidth - p.w - 2 * p.left <= 1
    ensures p.top + p.h <= vheight && vheight - p.h - 2 * p.top <= 1
    ensures p.offset == p.left * pixelSize + p.top * pitch
    ensures p.textX == p.left
    ensures p.textY <= p.top + p.h <= p.textY + 1
    ensures p.textY + 1 == p.top + p.h <==> vheight % 2 == 1 && p.h % 2 == 1
  {
    var w := Min(vwidth, imgW);
    var h := Min(vheight, imgH);
    var left := (vwidth - w) / 2;
    var top := (vheight - h) / 2;
    Placement(w, h, left, top, left * pixelSize + top * pitch, left, vheight / 2 + h / 2)
  }

  /**
    With rows at least `vwidth` pixels long, every pixel of the cropped logo
    lands inside the framebuffer's vheight rows.
  */
  lemma CropFits(vwidth: nat, vheight: nat, pitch: nat, pixelSize: nat, imgW: nat, imgH: nat, row: nat, col: nat)
    requires vwidth * pixelSize <= pitch
    requires var p := Crop(vwidth, vheight, pitch, pixelSize, imgW, imgH); row < p.h && col < p.w
    ensures var p := Crop(vwidth, vheight, pitch, pixelSize, imgW, imgH);
      p.offset + row * pitch + (col + 1) * pixelSize <= vheight * pitch
  {
    var p := Crop(vwidth, vheight, pitch, pixelSize, imgW, imgH);
    assert (p.left + col + 1) * pixelSize <= vwidth * pixelSize by {
      MulMono(p.left + col + 1, vwidth, pixelSize);
    }
    assert (p.top + row + 1) * pitch <= vheight * pitch by {
      MulMono(p.top + row + 1, vheight, pitch);
    }
    calc {
      p.offset + row * pitch + (col + 1) * pixelSize;
      (p.left + col + 1) * pixelSize + (p.top + row) * pitch;
    <= pitch + (p.top + row) * pitch;
      (p.top + row + 1) * pitch;
    <= vheight * pitch;
    }
  }

  lemma MulMono(a: nat, b: nat, c: nat)
    requires a <= b
    ensures a * c <= b * c
  {
  }
}
