/** Signal delivery and return (checkSignal in kernel/task/scheduler.self.cpp, kernel/syscall/sigreturn.cpp,
    kernel/task/signal.hpp, kernel/task/tcb/signal.hpp).  A delivery pushes the interrupted registers and the
    mask onto the user stack and enters the handler; sigreturn reads them back.

    What the program does in between is arbitrary, as long as it leaves the saved registers alone and keeps
    its stack below them. */
module Signals {
  import opened Basics
  import opened Bytes

  const USER_CS: nat := 0x1B
  const USER_DS: nat := 0x23
  const USER_TLS: nat := 0x33
  const KERNEL_BASE: nat := 0xC000_0000
  const TRAMPOLINE: nat := 0xFFFF_F000
  const FRAME_BYTES: nat := 72
  const SAVED_BYTES: nat := 80
  const SIGNAL_FRAME: nat := 88

  // ----- Registers

  datatype Frame = Frame(
    effective: nat,
    gs: nat, fs: nat, es: nat, ds: nat,
    general: seq<nat>,   // edi, esi, ebp, esp, ebx, edx, ecx, eax
    isr: nat, error: nat, eip: nat, cs: nat, flags: nat, userEsp: nat, userSs: nat)

  /** 16-bit segments, 32-bit words. */
  ghost predicate Fits(f: Frame) {
    && f.effective < WORD && f.gs < 0x1_0000 && f.fs < 0x1_0000 && f.es < 0x1_0000 && f.ds < 0x1_0000
    && |f.general| == 8 && (forall i :: 0 <= i < 8 ==> f.general[i] < WORD)
    && f.isr < WORD && f.error < WORD && f.eip < WORD && f.cs < WORD && f.flags < WORD
    && f.userEsp < WORD && f.userSs < WORD
  }

  function LongWords(f: Frame): seq<nat> {
    f.general + [f.isr, f.error, f.eip, f.cs, f.flags, f.userEsp, f.userSs]
  }

  /** The structure as it lies in memory. */
  function FrameBytes(f: Frame): (s: seq<Byte>)
    requires |f.general| == 8
    ensures |s| == FRAME_BYTES
  {
    Le4(f.effective) + Le2(f.gs) + Le2(f.fs) + Le2(f.es) + Le2(f.ds) + Words(LongWords(f))
  }

  function FrameOf(s: seq<Byte>): (f: Frame)
    requires |s| == FRAME_BYTES
  {
    var ws := WordsAt(s[12..], 15);
    Frame(U4(s, 0), U2(s, 4), U2(s, 6), U2(s, 8), U2(s, 10), ws[..8], ws[8], ws[9], ws[10], ws[11], ws[12], ws[13],
      ws[14])
  }

  /** Registers survive the copy to the user stack and back. */
  lemma FrameBack(f: Frame)
    requires Fits(f)
    ensures FrameOf(FrameBytes(f)) == f
  {
    hide Le4, Le2, U4, U2, Words;
    var s, ws := FrameBytes(f), LongWords(f);
    assert s[0..4] == Le4(f.effective) && s[4..6] == Le2(f.gs) && s[6..8] == Le2(f.fs) && s[8..10] == Le2(f.es)
           && s[10..12] == Le2(f.ds);
    ReadLe4(f.effective, s, 0);
    ReadLe2(f.gs, s, 4);
    ReadLe2(f.fs, s, 6);
    ReadLe2(f.es, s, 8);
    ReadLe2(f.ds, s, 10);
    assert s[12..] == Words(ws);
    WordsAtBack(ws);
    assert ws[..8] == f.general;
  }

  /** Which register lies where: the segments are 16-bit words from byte 4 on, everything else 32-bit words. */
  lemma FrameLayout(f: Frame)
    requires Fits(f)
    ensures var s := FrameBytes(f);
            && U4(s, 0) == f.effective
            && U2(s, 4) == f.gs && U2(s, 6) == f.fs && U2(s, 8) == f.es && U2(s, 10) == f.ds
            && (forall i :: 0 <= i < 8 ==> U4(s, 12 + 4 * i) == f.general[i])
            && U4(s, 44) == f.isr && U4(s, 48) == f.error && U4(s, 52) == f.eip && U4(s, 56) == f.cs
            && U4(s, 60) == f.flags && U4(s, 64) == f.userEsp && U4(s, 68) == f.userSs
  {
    hide Le4, Le2, U4, U2, Words;
    var s, ws := FrameBytes(f), LongWords(f);
    assert s[0..4] == Le4(f.effective) && s[4..6] == Le2(f.gs) && s[6..8] == Le2(f.fs) && s[8..10] == Le2(f.es)
           && s[10..12] == Le2(f.ds);
    ReadLe4(f.effective, s, 0);
    ReadLe2(f.gs, s, 4);
    ReadLe2(f.fs, s, 6);
    ReadLe2(f.es, s, 8);
    ReadLe2(f.ds, s, 10);
    assert s[12..] == Words(ws);
    forall i | 0 <= i < 15 ensures U4(s, 12 + 4 * i) == ws[i] {
      U4Drop(s, 12, 4 * i);
      WordsBack(ws, i);
    }
    forall i | 0 <= i < 8 ensures U4(s, 12 + 4 * i) == f.general[i] {
      assert ws[i] == f.general[i];
    }
    assert U4(s, 12 + 4 * 8) == ws[8] && U4(s, 12 + 4 * 9) == ws[9] && U4(s, 12 + 4 * 10) == ws[10]
           && U4(s, 12 + 4 * 11) == ws[11] && U4(s, 12 + 4 * 12) == ws[12] && U4(s, 12 + 4 * 13) == ws[13]
           && U4(s, 12 + 4 * 14) == ws[14];
  }

  // ----- Signal sets

  /** Bit i stands for signal i + 1. */
  type Mask = m: seq<bool> | |m| == 64 witness seq(64, _ => false)

  function Bit(b: bool): nat {
    if b then 1 else 0
  }

  /** The number whose n lowest bits are those of m from j on. */
  function NumberOf(m: Mask, j: nat, n: nat): (x: nat)
    requires j + n <= 64
    ensures x < Pow2(n)
    decreases n
  {
    if n == 0 then 0 else Bit(m[j]) + 2 * NumberOf(m, j + 1, n - 1)
  }

  function BitOf(x: nat, c: nat): bool {
    if c == 0 then x % 2 == 1 else BitOf(x / 2, c - 1)
  }

  function MaskBytes(m: Mask): (s: seq<Byte>)
    ensures |s| == 8
  {
    seq(8, i requires 0 <= i < 8 => NumberOf(m, 8 * i, 8))
  }

  function MaskOf(s: seq<Byte>): (m: Mask)
    requires |s| == 8
  {
    seq(64, j requires 0 <= j < 64 => BitOf(s[j / 8], j % 8))
  }

  lemma {:induction false} NumberBack(m: Mask, j: nat, n: nat, c: nat)
    requires j + n <= 64 && c < n
    ensures BitOf(NumberOf(m, j, n), c) == m[j + c]
    decreases n
  {
    if c > 0 {
      NumberBack(m, j + 1, n - 1, c - 1);
    }
  }

  lemma MaskBack(m: Mask)
    ensures MaskOf(MaskBytes(m)) == m
  {
    hide NumberOf, BitOf;
    forall j | 0 <= j < 64 ensures MaskOf(MaskBytes(m))[j] == m[j] {
      NumberBack(m, j / 8 * 8, 8, j % 8);
    }
  }

  /** std::countr_zero of pending & ~mask, from bit i on. */
  function Lowest(pending: Mask, mask: Mask, i: nat := 0): (r: Option<nat>)
    requires i <= 64
    ensures r.Some? ==> i <= r.value < 64 && pending[r.value] && !mask[r.value]
    ensures forall j :: i <= j < (if r.Some? then r.value else 64) ==> !pending[j] || mask[j]
    decreases 64 - i
  {
    if i == 64 then None else if pending[i] && !mask[i] then Some(i) else Lowest(pending, mask, i + 1)
  }

  function Or(a: Mask, b: Mask): (m: Mask) {
    seq(64, i requires 0 <= i < 64 => a[i] || b[i])
  }

  // ----- User memory: addresses are 32-bit words

  function Peek(mem: map<nat, Byte>, a: nat): Byte {
    if a in mem then mem[a] else 0
  }

  function Load(mem: map<nat, Byte>, a: nat, n: nat): (s: seq<Byte>)
    ensures |s| == n
  {
    seq<Byte>(n, i requires 0 <= i < n => Peek(mem, (a + i) % WORD))
  }

  /** How far x lies above a, around the end of the address space. */
  function Above(a: nat, x: nat): (k: nat)
    ensures k < WORD
  {
    (x - a) % WORD
  }

  function Picked(s: seq<Byte>, k: nat): Byte {
    if k < |s| then s[k] else 0
  }

  function Poke(mem: map<nat, Byte>, a: nat, s: seq<Byte>): map<nat, Byte> {
    mem + map x: nat | x < WORD && Above(a, x) < |s| :: Picked(s, Above(a, x))
  }

  lemma AboveIs(a: nat, k: nat)
    requires k < WORD
    ensures Above(a, (a + k) % WORD) == k
  {
  }

  lemma LoadPoked(mem: map<nat, Byte>, a: nat, s: seq<Byte>, p: nat, n: nat)
    requires p + n <= |s| < WORD
    ensures Load(Poke(mem, a, s), a + p, n) == s[p..p + n]
  {
    hide Poke, Above;
    var q := s[p..p + n];
    forall i | 0 <= i < n ensures Load(Poke(mem, a, s), a + p, n)[i] == q[i] {
      AboveIs(a, p + i);
      PeekPoked(mem, a, s, (a + p + i) % WORD);
    }
  }

  lemma LoadElsewhere(mem: map<nat, Byte>, a: nat, s: seq<Byte>, b: nat, n: nat)
    requires |s| <= Above(a, b) && Above(a, b) + n <= WORD
    ensures Load(Poke(mem, a, s), b, n) == Load(mem, b, n)
  {
    hide Poke, Above;
    forall i | 0 <= i < n ensures Load(Poke(mem, a, s), b, n)[i] == Load(mem, b, n)[i] {
      AboveMore(a, b, i);
      PeekPoked(mem, a, s, (b + i) % WORD);
    }
  }

  lemma AboveMore(a: nat, b: nat, i: nat)
    requires Above(a, b) + i < WORD
    ensures Above(a, (b + i) % WORD) == Above(a, b) + i
  {
  }

  lemma PeekPoked(mem: map<nat, Byte>, a: nat, s: seq<Byte>, x: nat)
    requires x < WORD
    ensures Peek(Poke(mem, a, s), x) == if Above(a, x) < |s| then s[Above(a, x)] else Peek(mem, x)
  {
    hide Above;
  }

  // ----- Delivery and return

  datatype Action = Ignore | Default | Handler(entry: nat, mask: Mask, restorer: Option<nat>)

  /** One delivery that has not returned: where its frame lies, and what it saved. */
  datatype Saved = Saved(base: nat, frame: Frame, mask: Mask)

  datatype Task = Task(frame: Frame, mem: map<nat, Byte>, pending: Mask, mask: Mask, actions: seq<Action>,
      saved: seq<Saved>)

  datatype Outcome = Continues(task: Task) | Exits(sig: nat)

  const SIGSEGV: nat := 11

  predicate DefaultIgnored(sig: nat) {
    sig == 17 || sig == 23 || sig == 28   // SIGCHLD, SIGURG, SIGWINCH
  }

  function SavedBytes(frame: Frame, mask: Mask): (s: seq<Byte>)
    requires |frame.general| == 8
    ensures |s| == SAVED_BYTES
  {
    MaskBytes(mask) + FrameBytes(frame)
  }

  function SignalFrameBytes(ret: nat, sig: nat, frame: Frame, mask: Mask): (s: seq<Byte>)
    requires |frame.general| == 8
    ensures |s| == SIGNAL_FRAME
  {
    Le4(ret) + Le4(sig) + SavedBytes(frame, mask)
  }

  /** Where the signal frame goes; below 88 the subtraction wraps. */
  function FrameBase(esp: nat): (base: nat)
    ensures base < WORD
  {
    (esp - SIGNAL_FRAME) % WORD
  }

  /** The next signal is one the program handles itself. */
  predicate Handled(t: Task)
    requires |t.actions| == 65
  {
    var i := Lowest(t.pending, t.mask);
    i.Some? && t.actions[i.value + 1].Handler?
  }

  /** checkSignal on the way back to user mode. */
  function CheckSignal(t: Task): Outcome
    requires |t.actions| == 65 && |t.frame.general| == 8
  {
    match Lowest(t.pending, t.mask)
    case None => Continues(t)
    case Some(i) =>
      var sig, t1 := i + 1, t.(pending := t.pending[i := false]);
      match t.actions[sig]
      case Ignore => Continues(t1)
      case Default => if DefaultIgnored(sig) then Continues(t1) else Exits(sig)
      case Handler(entry, mask, restorer) =>
        var base := FrameBase(t.frame.userEsp);
        var ret := match restorer case Some(r) => r case None => TRAMPOLINE;
        Continues(t1.(mask := Or(t.mask, mask),
                      mem := Poke(t.mem, base, SignalFrameBytes(ret, sig, t.frame, t.mask)),
                      frame := t.frame.(eip := entry, userEsp := base),
                      saved := t.saved + [Saved(base, t.frame, t.mask)]))
  }

  /** (flags & ~0x3000) | 0x200. */
  function UserFlags(flags: nat): nat {
    var f := flags - flags / 0x1000 % 4 * 0x1000;
    if f / 0x200 % 2 == 1 then f else f + 0x200
  }

  function Forced(f: Frame): Frame {
    f.(cs := USER_CS, userSs := USER_DS, ds := USER_DS, es := USER_DS, fs := USER_DS,
       gs := if f.gs != USER_DS && f.gs != USER_TLS then USER_DS else f.gs, flags := UserFlags(f.flags))
  }

  predicate CanReturnTo(eip: nat, exec: set<nat>) {
    eip < KERNEL_BASE && eip in exec
  }

  /** sigreturn; exec is the set of addresses that checkE accepts. */
  function SigReturn(t: Task, exec: set<nat>): Outcome {
    var mask := MaskOf(Load(t.mem, t.frame.userEsp, 8));
    var f := FrameOf(Load(t.mem, t.frame.userEsp + 8, FRAME_BYTES));
    if !CanReturnTo(f.eip, exec) then Exits(SIGSEGV)
    else Continues(t.(mask := mask, frame := Forced(f), saved := if t.saved == [] then []
      else t.saved[..|t.saved| - 1]))
  }

  /** What a forced flags word is: interrupts on, I/O privilege 0, every other bit as it was. */
  lemma UserFlagsBits(flags: nat)
    ensures var f := UserFlags(flags);
            && f / 0x200 % 2 == 1 && f / 0x1000 % 4 == 0
            && f % 0x200 == flags % 0x200 && f / 0x400 % 4 == flags / 0x400 % 4 && f / 0x4000 == flags / 0x4000
  {
    var low, on, mid, iopl, high := flags % 0x200, flags / 0x200 % 2, flags / 0x400 % 4, flags / 0x1000 % 4,
      flags / 0x4000;
    FlagsSplit(flags);
    FlagsJoined(low, on, mid, 0, high);
    FlagsJoined(low, 1, mid, 0, high);
    assert UserFlags(flags) == low + 0x200 + 0x400 * mid + 0x4000 * high;
  }

  lemma FlagsSplit(x: nat)
    ensures x == x % 0x200 + 0x200 * (x / 0x200 % 2) + 0x400 * (x / 0x400 % 4) + 0x1000 * (x / 0x1000 % 4)
            + 0x4000 * (x / 0x4000)
  {
    Shifts(x);
    var a, b, c := x / 0x200, x / 0x400, x / 0x1000;
    assert x == 0x200 * a + x % 0x200 && a == 2 * b + a % 2 && b == 4 * c + b % 4 && c == 4 * (c / 4) + c % 4;
  }

  /** Shifting in steps. */
  lemma Shifts(x: nat)
    ensures x / 0x400 == x / 0x200 / 2 && x / 0x1000 == x / 0x400 / 4 && x / 0x4000 == x / 0x1000 / 4
  {
    Shift2(x);
    Shift4(x, 0x400);
    Shift4(x, 0x1000);
  }

  lemma Shift2(x: nat)
    ensures x / 0x400 == x / 0x200 / 2
  {
  }

  lemma Shift4(x: nat, d: nat)
    requires d == 0x400 || d == 0x1000
    ensures x / (4 * d) == x / d / 4
  {
    if d == 0x400 {
      assert x / 0x1000 == x / 0x400 / 4;
    } else {
      assert x / 0x4000 == x / 0x1000 / 4;
    }
  }

  lemma FlagsJoined(low: nat, on: nat, mid: nat, iopl: nat, high: nat)
    requires low < 0x200 && on < 2 && mid < 4 && iopl < 4
    ensures var x := low + 0x200 * on + 0x400 * mid + 0x1000 * iopl + 0x4000 * high;
            x % 0x200 == low && x / 0x200 % 2 == on && x / 0x400 % 4 == mid && x / 0x1000 % 4 == iopl
              && x / 0x4000 == high
  {
    var x := low + 0x200 * on + 0x400 * mid + 0x1000 * iopl + 0x4000 * high;
    Shifts(x);
    assert x / 0x200 == on + 2 * mid + 8 * iopl + 32 * high;
    assert x / 0x400 == mid + 4 * iopl + 16 * high;
    assert x / 0x1000 == iopl + 4 * high;
  }

  /** What a handler finds: the signal is the lowest deliverable one and no longer pending, its number and the
      return address are on the stack at the new stack pointer, the mask has grown by the handler's, the
      registers are those that were interrupted but for the two that enter the handler, and no memory outside
      the signal frame has changed. */
  lemma DeliveryExact(t: Task, i: nat)
    requires Fits(t.frame) && |t.actions| == 65
    requires Lowest(t.pending, t.mask) == Some(i) && t.actions[i + 1].Handler?
    requires t.actions[i + 1].restorer.Some? ==> t.actions[i + 1].restorer.value < WORD
    ensures CheckSignal(t).Continues?
    ensures var t', h, base := CheckSignal(t).task, t.actions[i + 1], FrameBase(t.frame.userEsp);
            && t.pending[i] && !t.mask[i] && (forall j :: 0 <= j < i ==> !t.pending[j] || t.mask[j])
            && (forall j :: 0 <= j < 64 ==> (t'.pending[j] <==> t.pending[j] && j != i))
            && (forall j :: 0 <= j < 64 ==> (t'.mask[j] <==> t.mask[j] || h.mask[j]))
            && t'.frame == t.frame.(eip := h.entry, userEsp := base)
            && U4(Load(t'.mem, base, 4), 0) == (match h.restorer case Some(r) => r case None => TRAMPOLINE)
            && U4(Load(t'.mem, base + 4, 4), 0) == i + 1
            && Load(t'.mem, base + 8, SAVED_BYTES) == SavedBytes(t.frame, t.mask)
            && (forall a: nat :: a < WORD && Above(base, a) >= SIGNAL_FRAME ==> Peek(t'.mem, a) == Peek(t.mem, a))
  {
    hide Load, Poke, SavedBytes, Le4, U4, Lowest, Peek, FrameBase, Above;
    var base := FrameBase(t.frame.userEsp);
    var ret := match t.actions[i + 1].restorer case Some(r) => r case None => TRAMPOLINE;
    var s := SignalFrameBytes(ret, i + 1, t.frame, t.mask);
    LoadPoked(t.mem, base, s, 0, 4);
    LoadPoked(t.mem, base, s, 4, 4);
    LoadPoked(t.mem, base, s, 8, SAVED_BYTES);
    assert s[0..4] == Le4(ret) && s[4..8] == Le4(i + 1) && s[8..8 + SAVED_BYTES] == SavedBytes(t.frame, t.mask);
    assert Le4(ret)[0..4] == Le4(ret) && Le4(i + 1)[0..4] == Le4(i + 1);
    ReadLe4(ret, Le4(ret), 0);
    ReadLe4(i + 1, Le4(i + 1), 0);
    forall a: nat | a < WORD && Above(base, a) >= SIGNAL_FRAME ensures Peek(Poke(t.mem, base, s), a) == Peek(t.mem, a) {
      PeekPoked(t.mem, base, s, a);
    }
  }

  /** Of what is saved the mask comes first, then the registers. */
  lemma SavedParts(mem: map<nat, Byte>, base: nat, frame: Frame, mask: Mask)
    requires |frame.general| == 8 && Load(mem, base + 8, SAVED_BYTES) == SavedBytes(frame, mask)
    ensures Load(mem, base + 8, 8) == MaskBytes(mask) && Load(mem, base + 16, 72) == FrameBytes(frame)
  {
    hide Load, MaskBytes, FrameBytes;
    LoadSplit(mem, base + 8, 8, 72);
    var s := SavedBytes(frame, mask);
    assert s[..8] == MaskBytes(mask) && s[8..] == FrameBytes(frame);
  }

  /** The program ends exactly if the lowest deliverable signal has its default action and is none of SIGCHLD, SIGURG
      and SIGWINCH, and then by that signal. */
  lemma EndsIff(t: Task)
    requires |t.actions| == 65 && |t.frame.general| == 8
    ensures CheckSignal(t).Exits? <==>
            exists i: nat :: FirstOf(t, i) && t.actions[i + 1].Default? && i + 1 !in {17, 23, 28}
    ensures CheckSignal(t).Exits? ==> 1 <= CheckSignal(t).sig && FirstOf(t, CheckSignal(t).sig - 1)
  {
    hide Lowest, SignalFrameBytes, Poke, FirstOf;
    LowestFirst(t);
    if CheckSignal(t).Exits? {
      assert FirstOf(t, Lowest(t.pending, t.mask).value);
    }
  }

  lemma LowestFirst(t: Task)
    ensures forall i: nat :: FirstOf(t, i) <==> Lowest(t.pending, t.mask) == Some(i)
  {
    hide Lowest;
    forall i: nat | FirstOf(t, i) ensures Lowest(t.pending, t.mask) == Some(i) {
      LowestIs(t.pending, t.mask, i, 0);
    }
  }

  /** Signal i + 1 is pending, not masked, and the lowest such. */
  ghost predicate FirstOf(t: Task, i: nat) {
    i < 64 && t.pending[i] && !t.mask[i] && forall j :: 0 <= j < i ==> !t.pending[j] || t.mask[j]
  }

  /** A program that goes on has the lowest deliverable signal taken off what is pending, and but for a handler nothing
      else changes; without one nothing does. */
  lemma TakenOff(t: Task)
    requires |t.actions| == 65 && |t.frame.general| == 8 && CheckSignal(t).Continues?
    ensures var t' := CheckSignal(t).task;
            && (forall j: nat :: j < 64 ==> (t'.pending[j] <==> t.pending[j] && !FirstOf(t, j)))
            && (!Handled(t) ==> t' == t.(pending := t'.pending))
  {
    hide Lowest, SignalFrameBytes, Poke, FirstOf;
    LowestFirst(t);
  }

  // ----- Runs

  ghost predicate SavedOk(mem: map<nat, Byte>, v: Saved) {
    && Fits(v.frame) && v.base == FrameBase(v.frame.userEsp)
    && Load(mem, v.base + 8, SAVED_BYTES) == SavedBytes(v.frame, v.mask)
  }

  /** A signal frame at base touches nothing that v has saved, on either side around the address space. */
  predicate Misses(base: nat, v: Saved) {
    SIGNAL_FRAME <= Above(base, v.base + 8) <= WORD - SAVED_BYTES
  }

  /** The next signal frame touches nothing that is saved. */
  predicate HasRoom(t: Task) {
    forall k :: 0 <= k < |t.saved| ==> Misses(FrameBase(t.frame.userEsp), t.saved[k])
  }

  /** In plain numbers, for a saved part that does not itself go round the end of the address space. */
  lemma MissesIff(esp: nat, v: Saved)
    requires esp < WORD && v.base + SIGNAL_FRAME <= WORD
    ensures Misses(FrameBase(esp), v) <==>
            if esp >= SIGNAL_FRAME then esp <= v.base + 8 || v.base + 2 * SIGNAL_FRAME <= esp
            else esp <= v.base + 8 && v.base + 2 * SIGNAL_FRAME <= esp + WORD
  {
  }

  /** The saved parts lie apart. */
  ghost predicate Separate(saved: seq<Saved>) {
    forall j, k :: 0 <= j < k < |saved| ==> Misses(saved[k].base, saved[j])
  }

  ghost predicate Inv(t: Task) {
    && Fits(t.frame) && |t.actions| == 65
    && (forall i :: 0 <= i < 65 ==> t.actions[i].Handler? ==> t.actions[i].entry < WORD)
    && (forall k :: 0 <= k < |t.saved| ==> SavedOk(t.mem, t.saved[k]))
    && Separate(t.saved)
  }

  /** A delivery saves the interrupted state and leaves alone what was saved before, wherever the stack pointer is, if
      the frame misses it. */
  lemma DeliverKeeps(t: Task)
    requires Inv(t) && CheckSignal(t).Continues? && (Handled(t) ==> HasRoom(t))
    ensures Inv(CheckSignal(t).task)
    ensures var t' := CheckSignal(t).task;
            t'.saved == if Handled(t) then t.saved + [Saved(t'.frame.userEsp, t.frame, t.mask)] else t.saved
  {
    hide SavedBytes, Load, Poke, FrameBytes, MaskBytes, Misses, FrameBase;
    if Handled(t) {
      var sig := Lowest(t.pending, t.mask).value + 1;
      var h := t.actions[sig];
      var ret := match h.restorer case Some(r) => r case None => TRAMPOLINE;
      Pushed(t, ret, sig);
    }
  }

  /** The room is needed: a handler that goes back to the stack pointer it was entered with, and is interrupted there in
      another state, loses what was saved. */
  lemma SameStackLoses(t: Task, v: Saved)
    requires Inv(t) && t.saved == [v] && t.frame.userEsp == v.frame.userEsp && Handled(t)
    requires (t.frame, t.mask) != (v.frame, v.mask)
    ensures CheckSignal(t).Continues? && !SavedOk(CheckSignal(t).task.mem, v)
  {
    hide SavedBytes, Load, Poke, Lowest, FrameBase;
    var i := Lowest(t.pending, t.mask).value;
    var ret := match t.actions[i + 1].restorer case Some(r) => r case None => TRAMPOLINE;
    assert SavedOk(t.mem, t.saved[0]);
    SavedThere(t, ret, i + 1);
    SavedDiffer(t.frame, t.mask, v.frame, v.mask);
  }

  lemma SavedDiffer(f: Frame, mask: Mask, g: Frame, mask': Mask)
    requires Fits(f) && Fits(g)
    ensures SavedBytes(f, mask) == SavedBytes(g, mask') ==> f == g && mask == mask'
  {
    hide FrameBytes, MaskBytes, FrameOf, MaskOf;
    var s, s' := SavedBytes(f, mask), SavedBytes(g, mask');
    assert s[..8] == MaskBytes(mask) && s[8..] == FrameBytes(f);
    assert s'[..8] == MaskBytes(mask') && s'[8..] == FrameBytes(g);
    FrameBack(f);
    FrameBack(g);
    MaskBack(mask);
    MaskBack(mask');
  }

  lemma SavedThere(t: Task, ret: nat, sig: nat)
    requires Fits(t.frame)
    ensures var base := FrameBase(t.frame.userEsp);
            Load(Poke(t.mem, base, SignalFrameBytes(ret, sig, t.frame, t.mask)), base + 8, SAVED_BYTES)
            == SavedBytes(t.frame, t.mask)
  {
    hide SavedBytes, Load, Poke, FrameBase;
    var s := SignalFrameBytes(ret, sig, t.frame, t.mask);
    LoadPoked(t.mem, FrameBase(t.frame.userEsp), s, 8, SAVED_BYTES);
    assert s[8..8 + SAVED_BYTES] == SavedBytes(t.frame, t.mask);
  }

  lemma Pushed(t: Task, ret: nat, sig: nat)
    requires Inv(t) && HasRoom(t)
    ensures var base := FrameBase(t.frame.userEsp);
            var mem := Poke(t.mem, base, SignalFrameBytes(ret, sig, t.frame, t.mask));
            && SavedOk(mem, Saved(base, t.frame, t.mask))
            && (forall k :: 0 <= k < |t.saved| ==> SavedOk(mem, t.saved[k]))
  {
    hide SavedBytes, Load, Poke, FrameBase, Above;
    var base := FrameBase(t.frame.userEsp);
    var s := SignalFrameBytes(ret, sig, t.frame, t.mask);
    SavedThere(t, ret, sig);
    forall k | 0 <= k < |t.saved| ensures SavedOk(Poke(t.mem, base, s), t.saved[k]) {
      assert SavedOk(t.mem, t.saved[k]) && Misses(base, t.saved[k]);
      LoadElsewhere(t.mem, base, s, t.saved[k].base + 8, SAVED_BYTES);
    }
  }

  // ----- Where the frame goes

  /** A signal frame at base lies below the kernel's half. */
  ghost predicate InUserSpace(base: nat) {
    forall a: nat :: a < WORD && Above(base, a) < SIGNAL_FRAME ==> a < KERNEL_BASE
  }

  /** checkSignal never looks at the stack pointer: the frame lies in user space exactly for those from 88 to the start
      of the kernel's half, and then no byte of the kernel's changes. */
  lemma FrameInUserSpaceIff(t: Task)
    requires Inv(t) && Handled(t) && CheckSignal(t).Continues?
    ensures InUserSpace(FrameBase(t.frame.userEsp)) <==> SIGNAL_FRAME <= t.frame.userEsp <= KERNEL_BASE
    ensures SIGNAL_FRAME <= t.frame.userEsp <= KERNEL_BASE ==>
              forall a: nat :: KERNEL_BASE <= a < WORD ==> Peek(CheckSignal(t).task.mem, a) == Peek(t.mem, a)
  {
    hide Lowest, Poke, SignalFrameBytes, Peek;
    FrameWhere(t.frame.userEsp);
    if SIGNAL_FRAME <= t.frame.userEsp <= KERNEL_BASE {
      var i := Lowest(t.pending, t.mask).value;
      var ret := match t.actions[i + 1].restorer case Some(r) => r case None => TRAMPOLINE;
      var base, s := FrameBase(t.frame.userEsp), SignalFrameBytes(ret, i + 1, t.frame, t.mask);
      forall a: nat | KERNEL_BASE <= a < WORD ensures Peek(Poke(t.mem, base, s), a) == Peek(t.mem, a) {
        PeekPoked(t.mem, base, s, a);
      }
    }
  }

  lemma FrameWhere(esp: nat)
    requires esp < WORD
    ensures InUserSpace(FrameBase(esp)) <==> SIGNAL_FRAME <= esp <= KERNEL_BASE
  {
    var base := FrameBase(esp);
    if esp < SIGNAL_FRAME {
      assert Above(base, WORD - 1) < SIGNAL_FRAME;
    } else if esp > KERNEL_BASE {
      assert Above(base, esp - 1) < SIGNAL_FRAME;
    }
  }

  /** With the stack pointer at 0xD0000000 the kernel writes the signal's number into its own half. */
  lemma KernelByteChanges(t: Task)
    requires Inv(t) && Handled(t) && t.frame.userEsp == 0xD000_0000 && Peek(t.mem, 0xCFFF_FFAC) == 0
    ensures CheckSignal(t).Continues? && Peek(CheckSignal(t).task.mem, 0xCFFF_FFAC) != 0
  {
    hide Lowest, Poke, Peek;
    var i := Lowest(t.pending, t.mask).value;
    var ret := match t.actions[i + 1].restorer case Some(r) => r case None => TRAMPOLINE;
    var base, s := FrameBase(t.frame.userEsp), SignalFrameBytes(ret, i + 1, t.frame, t.mask);
    assert base == 0xCFFF_FFA8 && Above(base, 0xCFFF_FFAC) == 4;
    PeekPoked(t.mem, base, s, 0xCFFF_FFAC);
    assert s[4] == Le4(i + 1)[0];
  }

  /** With the stack pointer at 0 the frame goes to the last 88 bytes of the address space. */
  lemma FrameWraps(t: Task)
    requires Inv(t) && t.frame.userEsp == 0 && Handled(t)
    ensures CheckSignal(t).Continues? && CheckSignal(t).task.frame.userEsp == 0xFFFF_FFA8
    ensures !InUserSpace(0xFFFF_FFA8)
  {
    hide Inv, Lowest, Poke, SignalFrameBytes, InUserSpace;
    FrameWhere(0);
  }

  /** sigreturn takes back whatever was saved where the stack points. */
  lemma ReturnReads(t: Task, exec: set<nat>, f: Frame, mask: Mask)
    requires Fits(f) && Load(t.mem, t.frame.userEsp, SAVED_BYTES) == SavedBytes(f, mask)
    ensures SigReturn(t, exec) ==
              if CanReturnTo(f.eip, exec)
              then Continues(t.(mask := mask, frame := Forced(f),
                                saved := if t.saved == [] then [] else t.saved[..|t.saved| - 1]))
              else Exits(SIGSEGV)
  {
    hide FrameBytes, MaskBytes, FrameOf, MaskOf;
    var s := SavedBytes(f, mask);
    LoadSplit(t.mem, t.frame.userEsp, 8, FRAME_BYTES);
    assert s[..8] == MaskBytes(mask) && s[8..] == FrameBytes(f);
    FrameBack(f);
    MaskBack(mask);
  }

  /** The stack points at the newest saved mask. */
  predicate AtNewest(t: Task) {
    t.saved != [] && t.frame.userEsp == (t.saved[|t.saved| - 1].base + 8) % WORD
  }

  /** What the program finds after a return: the registers f, with the segments of user mode and user flags. */
  ghost predicate Restored(f: Frame, g: Frame) {
    && g.general == f.general && g.eip == f.eip && g.userEsp == f.userEsp
    && g.effective == f.effective && g.isr == f.isr && g.error == f.error
    && g.cs == 0x1B && g.userSs == 0x23 && g.ds == 0x23 && g.es == 0x23 && g.fs == 0x23
    && g.gs == (if f.gs == 0x23 || f.gs == 0x33 then f.gs else 0x23)
    && g.flags / 0x200 % 2 == 1 && g.flags / 0x1000 % 4 == 0
    && g.flags % 0x200 == f.flags % 0x200 && g.flags / 0x400 % 4 == f.flags / 0x400 % 4
    && g.flags / 0x4000 == f.flags / 0x4000
  }

  lemma ForcedRestores(f: Frame)
    ensures Restored(f, Forced(f))
  {
    hide UserFlags;
    UserFlagsBits(f.flags);
  }

  /** A return at the newest saved frame restores exactly what its own delivery saved, with segments and
      flags forced to user values, if the program can go on there; otherwise it ends the program. */
  lemma ReturnExact(t: Task, exec: set<nat>)
    requires Inv(t) && AtNewest(t)
    ensures var v := t.saved[|t.saved| - 1];
            match SigReturn(t, exec)
            case Exits(sig) => sig == 11 && (v.frame.eip >= 0xC000_0000 || v.frame.eip !in exec)
            case Continues(t') =>
              && v.frame.eip < 0xC000_0000 && v.frame.eip in exec && Restored(v.frame, t'.frame)
              && t' == t.(mask := v.mask, frame := t'.frame, saved := t.saved[..|t.saved| - 1])
  {
    hide Inv, SigReturn, Forced, Restored;
    ReturnIs(t, exec);
    ForcedRestores(t.saved[|t.saved| - 1].frame);
  }

  lemma ReturnIs(t: Task, exec: set<nat>)
    requires Inv(t) && AtNewest(t)
    ensures var v := t.saved[|t.saved| - 1];
            SigReturn(t, exec) ==
              if CanReturnTo(v.frame.eip, exec)
              then Continues(t.(mask := v.mask, frame := Forced(v.frame), saved := t.saved[..|t.saved| - 1]))
              else Exits(SIGSEGV)
  {
    hide SavedBytes, Load, SigReturn;
    var v := t.saved[|t.saved| - 1];
    assert SavedOk(t.mem, v);
    LoadRound(t.mem, v.base + 8, SAVED_BYTES);
    ReturnReads(t, exec, v.frame, v.mask);
  }

  lemma LoadRound(mem: map<nat, Byte>, a: nat, n: nat)
    ensures Load(mem, a, n) == Load(mem, a % WORD, n)
  {
  }

  lemma LoadSplit(mem: map<nat, Byte>, a: nat, m: nat, n: nat)
    ensures Load(mem, a, m + n)[..m] == Load(mem, a, m) && Load(mem, a, m + n)[m..] == Load(mem, a + m, n)
  {
  }

  lemma ReturnKeeps(t: Task, exec: set<nat>)
    requires Inv(t) && AtNewest(t) && SigReturn(t, exec).Continues?
    ensures Inv(SigReturn(t, exec).task)
  {
    hide SavedBytes, Load, FrameOf, MaskOf;
    ReturnIs(t, exec);
    ForcedFits(t.saved[|t.saved| - 1].frame);
  }

  lemma ForcedFits(f: Frame)
    requires Fits(f)
    ensures Fits(Forced(f)) && Forced(f).userEsp == f.userEsp
  {
  }

  /** Between two visits to the kernel the program changes its registers and memory as it likes, signals
      arrive, and the mask may be set by other calls. */
  datatype Event = Deliver | User(frame: Frame, mem: map<nat, Byte>, pending: Mask, mask: Mask) | Return

  /** The program's side of the bargain: a stack pointer whose frame misses what is saved, saved registers left alone,
      and sigreturn called with the stack at the saved mask. */
  ghost predicate Allowed(t: Task, e: Event) {
    match e
    case Deliver => |t.actions| == 65 && (Handled(t) ==> HasRoom(t))
    case User(frame, mem, _, _) =>
      && Fits(frame)
      && forall k :: 0 <= k < |t.saved| ==> SavedOk(mem, t.saved[k])
    case Return => AtNewest(t)
  }

  ghost function Step(t: Task, e: Event, exec: set<nat>): Outcome
    requires Inv(t) && Allowed(t, e)
  {
    match e
    case Deliver => CheckSignal(t)
    case User(frame, mem, pending, mask) => Continues(t.(frame := frame, mem := mem, pending := pending, mask := mask))
    case Return => SigReturn(t, exec)
  }

  lemma StepKeeps(t: Task, e: Event, exec: set<nat>)
    requires Inv(t) && Allowed(t, e) && Step(t, e, exec).Continues?
    ensures Inv(Step(t, e, exec).task)
    ensures var n, n' := |t.saved|, |Step(t, e, exec).task.saved|;
            n - 1 <= n' && forall k :: 0 <= k < n && k < n' ==> Step(t, e, exec).task.saved[k] == t.saved[k]
  {
    hide SavedOk, CheckSignal, SigReturn;
    match e
    case Deliver => DeliverKeeps(t);
    case User(_, _, _, _) =>
    case Return =>
      ReturnKeeps(t, exec);
      ReturnIs(t, exec);
  }

  /** A run that never returns from the deliveries below depth d: the last state, if it gets that far. */
  ghost function Run(t: Task, es: seq<Event>, exec: set<nat>, d: nat): Option<Task>
    requires Inv(t)
    decreases |es|
  {
    if |t.saved| < d then None
    else if es == [] then Some(t)
    else if !Allowed(t, es[0]) || Step(t, es[0], exec).Exits? then None
    else
      StepKeeps(t, es[0], exec);
      Run(Step(t, es[0], exec).task, es[1..], exec, d)
  }

  lemma {:induction false} RunKeeps(t: Task, es: seq<Event>, exec: set<nat>, d: nat)
    requires Inv(t) && Run(t, es, exec, d).Some?
    ensures var t' := Run(t, es, exec, d).value;
            Inv(t') && d <= |t.saved| && d <= |t'.saved| && t'.saved[..d] == t.saved[..d]
    decreases |es|
  {
    hide Inv, Allowed, Step;
    if es != [] {
      StepKeeps(t, es[0], exec);
      RunKeeps(Step(t, es[0], exec).task, es[1..], exec, d);
    }
  }

  /** After i events the run is below depth d, or the next one breaks the rules or ends the program. */
  ghost predicate StuckAt(t: Task, es: seq<Event>, exec: set<nat>, d: nat, i: nat)
    requires Inv(t) && i <= |es|
  {
    && Run(t, es[..i], exec, 0).Some?
    && var t' := Run(t, es[..i], exec, 0).value;
    && Inv(t')
    && (|t'.saved| < d || (i < |es| && (!Allowed(t', es[i]) || Step(t', es[i], exec).Exits?)))
  }

  /** A run goes to its end exactly if that happens nowhere. */
  lemma {:induction false} RunStuckIff(t: Task, es: seq<Event>, exec: set<nat>, d: nat)
    requires Inv(t)
    ensures Run(t, es, exec, d).None? <==> exists i: nat :: i <= |es| && StuckAt(t, es, exec, d, i)
    decreases |es|
  {
    hide Inv, Allowed, Step, StuckAt;
    StuckFirst(t, es, exec, d);
    if es != [] && |t.saved| >= d && Allowed(t, es[0]) && Step(t, es[0], exec).Continues? {
      StepKeeps(t, es[0], exec);
      var t1 := Step(t, es[0], exec).task;
      RunStuckIff(t1, es[1..], exec, d);
      forall i: nat | i < |es| ensures StuckAt(t1, es[1..], exec, d, i) <==> StuckAt(t, es, exec, d, i + 1) {
        StuckLater(t, es, exec, d, t1, i);
      }
      if i: nat :| i <= |es| && StuckAt(t, es, exec, d, i) {
        assert StuckAt(t1, es[1..], exec, d, i - 1);
      }
      if i: nat :| i < |es| && StuckAt(t1, es[1..], exec, d, i) {
        assert StuckAt(t, es, exec, d, i + 1);
      }
    }
  }

  lemma StuckFirst(t: Task, es: seq<Event>, exec: set<nat>, d: nat)
    requires Inv(t)
    ensures StuckAt(t, es, exec, d, 0) <==>
            |t.saved| < d || (es != [] && (!Allowed(t, es[0]) || Step(t, es[0], exec).Exits?))
  {
    hide Inv, Allowed, Step;
    assert es[..0] == [];
  }

  lemma StuckLater(t: Task, es: seq<Event>, exec: set<nat>, d: nat, t1: Task, i: nat)
    requires Inv(t) && i < |es| && Allowed(t, es[0]) && Step(t, es[0], exec) == Continues(t1) && Inv(t1)
    ensures StuckAt(t1, es[1..], exec, d, i) <==> StuckAt(t, es, exec, d, i + 1)
  {
    hide Inv, Allowed, Step;
    assert es[..i + 1][0] == es[0] && es[..i + 1][1..] == es[1..][..i];
  }

  /** Nested signals unwind exactly: after a delivery, whatever deliveries and returns happen inside the
      handler and wherever the stack pointer was, the return that matches it puts back the mask and the registers it
      interrupted. */
  lemma Unwinds(t: Task, es: seq<Event>, exec: set<nat>)
    requires Inv(t) && CheckSignal(t).Continues? && Handled(t) && HasRoom(t) && Inv(CheckSignal(t).task)
    requires Run(CheckSignal(t).task, es, exec, |t.saved| + 1).Some?
    ensures var t2 := Run(CheckSignal(t).task, es, exec, |t.saved| + 1).value;
            |t2.saved| == |t.saved| + 1 && Allowed(t2, Return) ==>
              match SigReturn(t2, exec)
              case Exits(sig) => sig == 11 && (t.frame.eip >= 0xC000_0000 || t.frame.eip !in exec)
              case Continues(t') =>
                && t.frame.eip < 0xC000_0000 && t.frame.eip in exec && Restored(t.frame, t'.frame)
                && t' == t2.(mask := t.mask, frame := t'.frame, saved := t.saved)
  {
    hide CheckSignal, SigReturn, Run, SavedOk, Restored;
    var t1 := CheckSignal(t).task;
    DeliverKeeps(t);
    RunKeeps(t1, es, exec, |t.saved| + 1);
    var t2 := Run(t1, es, exec, |t.saved| + 1).value;
    if |t2.saved| == |t.saved| + 1 && Allowed(t2, Return) {
      assert t2.saved == t1.saved;
      ReturnExact(t2, exec);
      assert t1.saved[..|t.saved|] == t.saved;
    }
  }

  /** What two deliveries saved never overlaps. */
  lemma SavedApart(t: Task, j: nat, k: nat, a: nat)
    requires Inv(t) && j < k < |t.saved| && a < WORD
    ensures !(Above(t.saved[j].base + 8, a) < SAVED_BYTES && Above(t.saved[k].base + 8, a) < SAVED_BYTES)
  {
    hide Load, SavedBytes, Misses, Above;
    assert Misses(t.saved[k].base, t.saved[j]) && SavedOk(t.mem, t.saved[j]) && SavedOk(t.mem, t.saved[k]);
    MissesApart(t.saved[k].base, t.saved[j], a);
  }

  lemma MissesApart(base: nat, v: Saved, a: nat)
    requires base < WORD && v.base < WORD && a < WORD && Misses(base, v)
    ensures !(Above(v.base + 8, a) < SAVED_BYTES && Above(base + 8, a) < SAVED_BYTES)
  {
    hide Above;
    AboveNear(base, v.base + 8);
    AboveNear(base + 8, a);
    AboveNear(v.base + 8, a);
  }

  lemma AboveNear(a: nat, x: nat)
    requires a < WORD + 8 && x < WORD + 8
    ensures Above(a, x) == if x < a - WORD then x - a + 2 * WORD else if x < a then x - a + WORD
                           else if x < a + WORD then x - a else x - a - WORD
  {
  }

  /** The condition in Unwinds matters: a signal that arrives while the program is in the trampoline, or
      anywhere else above the user half, interrupts it at a place to which sigreturn refuses to go back. */
  lemma TrampolineInterrupted(t: Task, exec: set<nat>)
    requires Inv(t) && Handled(t) && t.frame.eip >= KERNEL_BASE
    requires forall i :: 0 <= i < 65 && t.actions[i].Handler? && t.actions[i].restorer.Some? ==>
                        t.actions[i].restorer.value < WORD
    ensures CheckSignal(t).Continues?
    ensures var t1 := CheckSignal(t).task;
            SigReturn(t1.(frame := t1.frame.(userEsp := t1.frame.userEsp + 8)), exec) == Exits(SIGSEGV)
  {
    hide CheckSignal, SigReturn, Load, SavedBytes, Lowest;
    DeliveryExact(t, Lowest(t.pending, t.mask).value);
    var t1 := CheckSignal(t).task;
    ReturnReads(t1.(frame := t1.frame.(userEsp := t1.frame.userEsp + 8)), exec, t.frame, t.mask);
  }

  // ----- The code

  /** Whether a signal would interrupt a system call. */
  predicate Interrupts(action: Action, sig: nat) {
    match action
    case Ignore => false
    case Default => !DefaultIgnored(sig)
    case Handler(_, _, _) => true
  }

  class SignalTask {
    var frame: Frame
    var mem: map<nat, Byte>
    var pending: Mask
    var mask: Mask
    var actions: seq<Action>
    ghost var saved: seq<Saved>

    ghost function Value(): Task
      reads this
    {
      Task(frame, mem, pending, mask, actions, saved)
    }

    method LowestSignal(sigs: Mask) returns (i: nat)
      requires exists j :: 0 <= j < 64 && sigs[j]
      ensures i < 64 && sigs[i] && forall j :: 0 <= j < i ==> !sigs[j]
    {
      i := 0;
      while !sigs[i]
        invariant i < 64 && (forall j :: 0 <= j < i ==> !sigs[j]) && exists j :: i <= j < 64 && sigs[j]
        decreases 64 - i
      {
        i := i + 1;
      }
    }

    function Rest(): (m: Mask)
      reads this
    {
      seq(64, i requires 0 <= i < 64 reads this => pending[i] && !mask[i])
    }

    /** Looks at every pending signal that is not masked, lowest first. */
    method IsInterrupted() returns (yes: bool)
      requires |actions| == 65
      ensures yes <==> exists i :: 0 <= i < 64 && Rest()[i] && Interrupts(actions[i + 1], i + 1)
    {
      var sigs := Rest();
      while exists i | 0 <= i < 64 :: sigs[i]
        invariant forall i :: 0 <= i < 64 && sigs[i] ==> Rest()[i]
        invariant forall i :: 0 <= i < 64 && Rest()[i] && !sigs[i] ==> !Interrupts(actions[i + 1], i + 1)
        decreases multiset(sigs)[true]
      {
        var i := LowestSignal(sigs);
        assert Rest()[i];
        sigs := sigs[i := false];
        if Interrupts(actions[i + 1], i + 1) {
          return true;
        }
      }
      return false;
    }

    method NextSignal() returns (r: Option<nat>)
      ensures r == Lowest(pending, mask)
    {
      hide Lowest;
      var sigs := Rest();
      assert forall i :: 0 <= i < 64 ==> sigs[i] == (pending[i] && !mask[i]);
      if !(exists i | 0 <= i < 64 :: sigs[i]) {
        NothingPending(pending, mask);
        return None;
      }
      var i := LowestSignal(sigs);
      LowestIs(pending, mask, i, 0);
      return Some(i);
    }

    method Deliver() returns (exit: Option<nat>)
      requires |actions| == 65 && |frame.general| == 8
      modifies this
      ensures match CheckSignal(old(Value()))
              case Exits(sig) => exit == Some(sig)
              case Continues(t) => exit == None && Value() == t
    {
      hide SignalFrameBytes, Poke, Lowest, Or;
      var next := NextSignal();
      if next.None? {
        return None;
      }
      var i := next.value;
      var sig := i + 1;
      pending := pending[i := false];
      match actions[sig] {
        case Ignore => return None;
        case Default => return if DefaultIgnored(sig) then None else Some(sig);
        case Handler(entry, more, restorer) =>
          var old_mask := mask;
          mask := Or(mask, more);
          var esp := (frame.userEsp - SIGNAL_FRAME) % WORD;
          var ret := match restorer case Some(r) => r case None => TRAMPOLINE;
          mem := Poke(mem, esp, SignalFrameBytes(ret, sig, frame, old_mask));
          saved := saved + [Saved(esp, frame, old_mask)];
          frame := frame.(eip := entry, userEsp := esp);
          return None;
      }
    }

    method Return(exec: set<nat>) returns (exit: Option<nat>)
      modifies this
      ensures match SigReturn(old(Value()), exec)
              case Exits(sig) => exit == Some(sig)
              case Continues(t) => exit == None && Value() == t
    {
      hide MaskOf, FrameOf, Load;
      var esp := frame.userEsp;
      mask := MaskOf(Load(mem, esp, 8));
      esp := esp + 8;
      frame := FrameOf(Load(mem, esp, FRAME_BYTES));
      if frame.eip >= KERNEL_BASE || frame.eip !in exec {
        return Some(SIGSEGV);
      }
      frame := frame.(cs := USER_CS, userSs := USER_DS, ds := USER_DS, es := USER_DS, fs := USER_DS);
      if frame.gs != USER_DS && frame.gs != USER_TLS {
        frame := frame.(gs := USER_DS);
      }
      frame := frame.(flags := UserFlags(frame.flags));
      saved := if saved == [] then [] else saved[..|saved| - 1];
      return None;
    }
  }

  lemma {:induction false} LowestIs(pending: Mask, mask: Mask, i: nat, from: nat)
    requires from <= i < 64 && pending[i] && !mask[i] && forall j :: from <= j < i ==> !pending[j] || mask[j]
    ensures Lowest(pending, mask, from) == Some(i)
    decreases i - from
  {
  }

  lemma NothingPending(pending: Mask, mask: Mask)
    requires forall i :: 0 <= i < 64 ==> !pending[i] || mask[i]
    ensures Lowest(pending, mask) == None
  {
  }
}
