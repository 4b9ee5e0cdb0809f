/** The binary log (kernel/logger/print.cpp, kernel/logger/types.hpp) and its incremental parser
    (logger/parser.ts): records are a 20-byte little-endian header and a body, written one after the other and
    read back from chunks that may end anywhere. */
module LogStream {
  import opened Basics
  import opened Bytes

  const HEADER_BYTES: nat := 20
  const LEN_WRAP: nat := 0x1_0000

  /** A 32-bit word read as a signed number, and back. */
  function Signed(n: nat): int {
    if n < WORD / 2 then n else n - WORD
  }

  function Unsigned(i: int): nat {
    i % WORD
  }

  predicate IsInt32(i: int) {
    -WORD / 2 <= i < WORD / 2
  }

  // ----- Records

  datatype Body =
    | Log(level: Byte, text: seq<Byte>)
    | Syscall(role: Byte, words: seq<nat>)
    | Exception(words: seq<nat>)
    | Fatal

  datatype Record = Record(ts: nat, eip: nat, pid: int, pgid: int, body: Body)

  ghost predicate AreWords(ws: seq<nat>, n: nat) {
    |ws| == n && forall i :: 0 <= i < |ws| ==> ws[i] < WORD
  }

  /** What the kernel's fields can hold. */
  ghost predicate Fits(r: Record) {
    && r.ts < WORD && r.eip < WORD && IsInt32(r.pid) && IsInt32(r.pgid)
    && (r.body.Syscall? ==> AreWords(r.body.words, 8))
    && (r.body.Exception? ==> AreWords(r.body.words, 5))
  }

  /** The bytes after the header.  The length of a text is cast to 16 bits, for the header and for the copy. */
  function Content(b: Body): (s: seq<Byte>) {
    match b
    case Log(_, text) => text[..|text| % LEN_WRAP]
    case Syscall(_, ws) => Words(ws)
    case Exception(ws) => Words(ws)
    case Fatal => []
  }

  function TypeOf(b: Body): (t: Byte) {
    match b
    case Log(_, _) => 0
    case Syscall(_, _) => 1
    case Exception(_) => 2
    case Fatal => 3
  }

  function ExtOf(b: Body): (t: Byte) {
    match b
    case Log(level, _) => level
    case Syscall(role, _) => role
    case _ => 0
  }

  function EmitHeader(r: Record): (s: seq<Byte>)
    ensures |s| == HEADER_BYTES
  {
    Le4(r.ts) + Le4(r.eip) + Le4(Unsigned(r.pid)) + Le4(Unsigned(r.pgid))
    + Le2(|Content(r.body)|) + [TypeOf(r.body), ExtOf(r.body)]
  }

  function Emit(r: Record): (s: seq<Byte>) {
    EmitHeader(r) + Content(r.body)
  }

  function EmitAll(rs: seq<Record>): (s: seq<Byte>) {
    if rs == [] then [] else Emit(rs[0]) + EmitAll(rs[1..])
  }

  /** What is left of a record on the wire. */
  function OnWire(r: Record): Record {
    match r.body
    case Log(level, text) => r.(body := Log(level, text[..|text| % LEN_WRAP]))
    case _ => r
  }

  /** A record is written whole exactly when its text is shorter than 65536 bytes. */
  lemma WholeIff(r: Record)
    ensures OnWire(r) == r <==> (r.body.Log? ==> |r.body.text| < LEN_WRAP)
  {
  }

  /** Where the fields of the header lie, and what its type and length say. */
  lemma HeaderLayout(r: Record)
    requires Fits(r)
    ensures var s := Emit(r);
            && |s| == 20 + U2(s, 16)
            && U4(s, 0) == r.ts && U4(s, 4) == r.eip
            && Signed(U4(s, 8)) == r.pid && Signed(U4(s, 12)) == r.pgid
            && s[20..] == Content(r.body)
            && match r.body
               case Log(level, text) => s[18] == 0 && s[19] == level && |s| == 20 + |text| % 0x1_0000
               case Syscall(role, _) => s[18] == 1 && s[19] == role && |s| == 52
               case Exception(_) => s[18] == 2 && |s| == 40
               case Fatal => s[18] == 3 && |s| == 20
  {
    hide Le4, Le2, U4, U2, Words;
    var s, h := Emit(r), EmitHeader(r);
    var n := |Content(r.body)|;
    assert s[0..4] == Le4(r.ts) && s[4..8] == Le4(r.eip) && s[8..12] == Le4(Unsigned(r.pid))
           && s[12..16] == Le4(Unsigned(r.pgid)) && s[16..18] == Le2(n);
    ReadLe4(r.ts, s, 0);
    ReadLe4(r.eip, s, 4);
    ReadLe4(Unsigned(r.pid), s, 8);
    ReadLe4(Unsigned(r.pgid), s, 12);
    ReadLe2(n, s, 16);
  }

  // ----- Parsing a whole stream

  datatype Header = Header(ts: nat, eip: nat, pid: int, pgid: int, len: nat, kind: Byte, ext: Byte)

  function HeaderAt(s: seq<Byte>, p: nat): Header
    requires p + HEADER_BYTES <= |s|
  {
    Header(U4(s, p), U4(s, p + 4), Signed(U4(s, p + 8)), Signed(U4(s, p + 12)), U2(s, p + 16), s[p + 18], s[p + 19])
  }

  datatype Decoded = Entry(record: Record) | Skip | Throw

  /** A type that is not known yields nothing; a body too short for its type throws. */
  function Decode(h: Header, content: seq<Byte>): Decoded {
    if h.kind == 0 then Entry(Record(h.ts, h.eip, h.pid, h.pgid, Log(h.ext, content)))
    else if h.kind == 1 then
      if |content| < 32 then Throw else Entry(Record(h.ts, h.eip, h.pid, h.pgid, Syscall(h.ext, WordsAt(content, 8))))
    else if h.kind == 2 then
      if |content| < 20 then Throw else Entry(Record(h.ts, h.eip, h.pid, h.pgid, Exception(WordsAt(content, 5))))
    else if h.kind == 3 then Entry(Record(h.ts, h.eip, h.pid, h.pgid, Fatal))
    else Skip
  }

  /** The entries of a stream, the bytes that do not make a whole record yet, and whether it has thrown. */
  datatype Parsed = Parsed(entries: seq<Record>, rest: seq<Byte>, dead: bool)

  /** The number of bytes of the first record, if it is all there. */
  function FirstLen(s: seq<Byte>): (n: Option<nat>)
    ensures n.Some? ==> HEADER_BYTES <= n.value <= |s|
  {
    if |s| < HEADER_BYTES then None
    else
      var n := HEADER_BYTES + HeaderAt(s, 0).len;
      if |s| < n then None else Some(n)
  }

  function Parse(s: seq<Byte>): (p: Parsed)
    decreases |s|
  {
    match FirstLen(s)
    case None => Parsed([], s, false)
    case Some(n) =>
      match Decode(HeaderAt(s, 0), s[HEADER_BYTES..n])
      case Throw => Parsed([], s, true)
      case Skip => Parse(s[n..])
      case Entry(r) => var p := Parse(s[n..]); p.(entries := [r] + p.entries)
  }

  /** Any stream, well formed or not: an incomplete record waits, an unknown type is passed over, a body too short for
      its type ends the parse, and everything else yields an entry with the fields of its header. */
  lemma FirstRecord(s: seq<Byte>)
    ensures |s| < 20 || |s| < 20 + U2(s, 16) ==> Parse(s) == Parsed([], s, false)
    ensures 20 <= |s| && 20 + U2(s, 16) <= |s| ==>
              var kind, len := s[18], U2(s, 16);
              var p, q := Parse(s), Parse(s[20 + len..]);
              var short := (kind == 1 && len < 32) || (kind == 2 && len < 20);
              && (short ==> p.dead && p.entries == [])
              && (kind > 3 ==> p == q)
              && (kind <= 3 && !short ==>
                    && p.dead == q.dead && p.rest == q.rest && |p.entries| == 1 + |q.entries|
                    && p.entries[1..] == q.entries
                    && var r := p.entries[0];
                    && r.ts == U4(s, 0) && r.eip == U4(s, 4) && r.pid == Signed(U4(s, 8)) && r.pgid == Signed(U4(s, 12))
                    && match r.body
                       case Log(level, text) => kind == 0 && level == s[19] && text == s[20..20 + len]
                       case Syscall(role, ws) => kind == 1 && role == s[19] && |ws| == 8
                                                 && forall i :: 0 <= i < 8 ==> ws[i] == U4(s[20..20 + len], 4 * i)
                       case Exception(ws) => kind == 2 && |ws| == 5
                                             && forall i :: 0 <= i < 5 ==> ws[i] == U4(s[20..20 + len], 4 * i)
                       case Fatal => kind == 3)
  {
    hide U4, U2, Signed;
  }

  /** What more input does to a parse that has stopped. */
  function Continue(p: Parsed, t: seq<Byte>): Parsed {
    if p.dead then p.(rest := p.rest + t)
    else var q := Parse(p.rest + t); q.(entries := p.entries + q.entries)
  }

  lemma ContinueCons(p: Parsed, r: Record, t: seq<Byte>)
    ensures Continue(p.(entries := [r] + p.entries), t) == var q := Continue(p, t); q.(entries := [r] + q.entries)
  {
  }

  /** Parsing goes on where it stopped: what more input adds depends on the bytes left over alone. */
  lemma {:induction false} ParseAppend(s: seq<Byte>, t: seq<Byte>)
    ensures Parse(s + t) == Continue(Parse(s), t)
    decreases |s|
  {
    hide HeaderAt, Decode, FirstLen;
    match FirstLen(s)
    case None =>
    case Some(n) =>
      assert (s + t)[..n] == s[..n];
      FirstLocal(s, s + t, n);
      assert (s + t)[n..] == s[n..] + t;
      ParseAppend(s[n..], t);
      match Decode(HeaderAt(s, 0), s[HEADER_BYTES..n]) {
        case Entry(r) => ContinueCons(Parse(s[n..]), r, t);
        case _ =>
      }
  }

  /** The first record is decoded from its own bytes. */
  lemma FirstLocal(s: seq<Byte>, s': seq<Byte>, n: nat)
    requires FirstLen(s) == Some(n) && n <= |s'| && s'[..n] == s[..n]
    ensures FirstLen(s') == Some(n) && HeaderAt(s', 0) == HeaderAt(s, 0) && s'[HEADER_BYTES..n] == s[HEADER_BYTES..n]
  {
  }

  // ----- Round trip

  lemma SignedBack(i: int)
    requires IsInt32(i)
    ensures Signed(Unsigned(i)) == i && Unsigned(i) < WORD
  {
  }

  lemma ContentShort(r: Record)
    requires Fits(r)
    ensures |Content(r.body)| < LEN_WRAP
  {
  }

  lemma HeaderBack(r: Record)
    requires Fits(r)
    ensures HeaderAt(EmitHeader(r), 0) ==
            Header(r.ts, r.eip, r.pid, r.pgid, |Content(r.body)|, TypeOf(r.body), ExtOf(r.body))
  {
    hide Le4, Le2, U4, U2, Unsigned, Signed, Content;
    var s := EmitHeader(r);
    ContentShort(r);
    SignedBack(r.pid);
    SignedBack(r.pgid);
    assert s[0..4] == Le4(r.ts) && s[4..8] == Le4(r.eip);
    assert s[8..12] == Le4(Unsigned(r.pid)) && s[12..16] == Le4(Unsigned(r.pgid));
    assert s[16..18] == Le2(|Content(r.body)|);
    ReadLe4(r.ts, s, 0);
    ReadLe4(r.eip, s, 4);
    ReadLe4(Unsigned(r.pid), s, 8);
    ReadLe4(Unsigned(r.pgid), s, 12);
    ReadLe2(|Content(r.body)|, s, 16);
  }

  lemma DecodeBack(r: Record)
    requires Fits(r)
    ensures Decode(HeaderAt(EmitHeader(r), 0), Content(r.body)) == Entry(OnWire(r))
  {
    hide EmitHeader, HeaderAt, WordsAt, Words;
    HeaderBack(r);
    match r.body
    case Log(_, _) =>
    case Syscall(_, ws) =>
      WordsAtBack(ws);
    case Exception(ws) =>
      WordsAtBack(ws);
    case Fatal =>
  }

  /** A whole record at the front of a stream is the first thing parsed. */
  lemma EmitFirst(r: Record, t: seq<Byte>)
    requires Fits(r)
    ensures FirstLen(Emit(r)) == Some(|Emit(r)|)
    ensures Parse(Emit(r) + t) == var p := Parse(t); p.(entries := [OnWire(r)] + p.entries)
  {
    hide EmitHeader, Content, Decode, OnWire;
    var s, n := Emit(r), |Emit(r)|;
    HeaderBack(r);
    DecodeBack(r);
    HeaderLocal(EmitHeader(r), s);
    assert s[HEADER_BYTES..n] == Content(r.body);
    assert (s + t)[..n] == s[..n];
    FirstLocal(s, s + t, n);
    assert (s + t)[n..] == t;
  }

  lemma HeaderLocal(a: seq<Byte>, s: seq<Byte>)
    requires |a| == HEADER_BYTES <= |s| && s[..HEADER_BYTES] == a
    ensures HeaderAt(s, 0) == HeaderAt(a, 0)
  {
  }

  function AllOnWire(rs: seq<Record>): (ws: seq<Record>)
    ensures |ws| == |rs| && forall i :: 0 <= i < |rs| ==> ws[i] == OnWire(rs[i])
  {
    seq(|rs|, i requires 0 <= i < |rs| => OnWire(rs[i]))
  }

  ghost predicate AllFit(rs: seq<Record>) {
    forall i :: 0 <= i < |rs| ==> Fits(rs[i])
  }

  /** How many records lie wholly in the first n bytes. */
  function Complete(rs: seq<Record>, n: nat): (k: nat)
    ensures k <= |rs|
  {
    if rs == [] || n < |Emit(rs[0])| then 0 else 1 + Complete(rs[1..], n - |Emit(rs[0])|)
  }

  lemma {:induction false} CompleteIs(rs: seq<Record>, n: nat)
    ensures |EmitAll(rs[..Complete(rs, n)])| <= n
    ensures Complete(rs, n) < |rs| ==> n < |EmitAll(rs[..Complete(rs, n) + 1])|
  {
    hide Emit;
    if rs != [] && n >= |Emit(rs[0])| {
      CompleteIs(rs[1..], n - |Emit(rs[0])|);
      var k := Complete(rs, n);
      assert rs[..k][1..] == rs[1..][..k - 1];
      assert k < |rs| ==> rs[..k + 1][1..] == rs[1..][..k];
    } else if rs != [] {
      assert rs[..1][1..] == [];
    }
  }

  /** After any prefix of the stream exactly the records that are complete in it have come out, in order, and
      nothing has thrown. */
  lemma {:induction false} PrefixExact(rs: seq<Record>, n: nat)
    requires AllFit(rs) && n <= |EmitAll(rs)|
    ensures var p, k := Parse(EmitAll(rs)[..n]), Complete(rs, n);
            p.entries == AllOnWire(rs[..k]) && !p.dead && (n == |EmitAll(rs)| ==> k == |rs| && p.rest == [])
    decreases |rs|
  {
    hide Emit, OnWire, Fits, Parse, FirstLen;
    var s := EmitAll(rs)[..n];
    if rs == [] {
      ParseShort(s);
    } else {
      var first, more := Emit(rs[0]), EmitAll(rs[1..]);
      if n < |first| {
        assert s == first[..n];
        CutShort(rs[0], n);
      } else {
        assert s == first + more[..n - |first|];
        EmitFirst(rs[0], more[..n - |first|]);
        PrefixExact(rs[1..], n - |first|);
        var k := Complete(rs, n);
        assert rs[1..][..k - 1] == rs[..k][1..];
        assert AllOnWire(rs[..k]) == [OnWire(rs[0])] + AllOnWire(rs[1..][..k - 1]);
      }
    }
  }

  lemma ParseShort(s: seq<Byte>)
    requires FirstLen(s) == None
    ensures Parse(s) == Parsed([], s, false)
  {
  }

  /** A cut record is not parsed. */
  lemma CutShort(r: Record, n: nat)
    requires Fits(r) && n < |Emit(r)|
    ensures Parse(Emit(r)[..n]) == Parsed([], Emit(r)[..n], false)
  {
    hide EmitHeader, Content, Parse;
    var s := Emit(r)[..n];
    HeaderBack(r);
    if n >= HEADER_BYTES {
      assert s[..HEADER_BYTES] == EmitHeader(r);
      HeaderLocal(EmitHeader(r), s);
    }
    ParseShort(s);
  }

  // ----- Chunks

  function Concat(chunks: seq<seq<Byte>>): seq<Byte> {
    if chunks == [] then [] else chunks[0] + Concat(chunks[1..])
  }

  /** The entries of a stream that arrives in chunks, from a parser that still holds some bytes. */
  function FeedAll(rest: seq<Byte>, chunks: seq<seq<Byte>>): seq<Record>
    decreases |chunks|
  {
    if chunks == [] then []
    else
      var p := Parse(rest + chunks[0]);
      p.entries + if p.dead then [] else FeedAll(p.rest, chunks[1..])
  }

  /** Where the stream is cut makes no difference. */
  lemma {:induction false} ChunksMakeNoDifference(rest: seq<Byte>, chunks: seq<seq<Byte>>)
    requires FirstLen(rest) == None
    ensures FeedAll(rest, chunks) == Parse(rest + Concat(chunks)).entries
    decreases |chunks|
  {
    hide Parse, FirstLen;
    if chunks == [] {
      assert rest + Concat(chunks) == rest;
      ParseShort(rest);
    } else {
      var p := Parse(rest + chunks[0]);
      assert rest + Concat(chunks) == (rest + chunks[0]) + Concat(chunks[1..]);
      ParseAppend(rest + chunks[0], Concat(chunks[1..]));
      RestIsShort(rest + chunks[0]);
      if !p.dead {
        ChunksMakeNoDifference(p.rest, chunks[1..]);
      }
    }
  }

  lemma {:induction false} RestIsShort(s: seq<Byte>)
    ensures !Parse(s).dead ==> FirstLen(Parse(s).rest) == None
    decreases |s|
  {
    hide HeaderAt, Decode, FirstLen;
    if FirstLen(s).Some? {
      RestIsShort(s[FirstLen(s).value..]);
    }
  }

  /** The round trip: whatever the chunks, the records come out as they were put on the wire, in order. */
  lemma RoundTrip(rs: seq<Record>, chunks: seq<seq<Byte>>)
    requires AllFit(rs) && Concat(chunks) == EmitAll(rs)
    ensures FeedAll([], chunks) == AllOnWire(rs)
  {
    hide Parse, FeedAll;
    ChunksMakeNoDifference([], chunks);
    var s := EmitAll(rs);
    PrefixExact(rs, |s|);
    assert [] + s == s[..|s|] == s && rs[..|rs|] == rs;
  }

  // ----- The code

  /** Who writes: the pid and group of the current task, if there is one yet. */
  datatype Writer = Nobody | Someone(pid: int, pgid: int)

  datatype SyscallContent = SyscallContent(
    ret: nat, id: nat, ebx: nat, ecx: nat, edx: nat, esi: nat, edi: nat, ebp: nat)

  function SyscallWords(c: SyscallContent): seq<nat> {
    [c.ret, c.id, c.ebx, c.ecx, c.edx, c.esi, c.edi, c.ebp]
  }

  datatype ExceptionContent = ExceptionContent(num: nat, errcode: nat, cs: nat, eip: nat, cr2: nat)

  function ExceptionWords(c: ExceptionContent): seq<nat> {
    [c.num, c.errcode, c.cs, c.eip, c.cr2]
  }

  /** Where the fields of a system call and of an exception lie after the header. */
  lemma ContentLayout(c: SyscallContent, e: ExceptionContent)
    requires AreWords([c.ret, c.id, c.ebx, c.ecx, c.edx, c.esi, c.edi, c.ebp], 8)
    requires AreWords([e.num, e.errcode, e.cs, e.eip, e.cr2], 5)
    ensures var s := Content(Syscall(0, SyscallWords(c)));
            && |s| == 32
            && U4(s, 0) == c.ret && U4(s, 4) == c.id && U4(s, 8) == c.ebx && U4(s, 12) == c.ecx
            && U4(s, 16) == c.edx && U4(s, 20) == c.esi && U4(s, 24) == c.edi && U4(s, 28) == c.ebp
    ensures var s := Content(Exception(ExceptionWords(e)));
            && |s| == 20
            && U4(s, 0) == e.num && U4(s, 4) == e.errcode && U4(s, 8) == e.cs && U4(s, 12) == e.eip
            && U4(s, 16) == e.cr2
  {
    hide Words, U4;
    WordsAtBack(SyscallWords(c));
    WordsAtBack(ExceptionWords(e));
    var s, t := WordsAt(Words(SyscallWords(c)), 8), WordsAt(Words(ExceptionWords(e)), 5);
    assert s[0] == c.ret && s[1] == c.id && s[2] == c.ebx && s[3] == c.ecx && s[4] == c.edx && s[5] == c.esi
           && s[6] == c.edi && s[7] == c.ebp;
    assert t[0] == e.num && t[1] == e.errcode && t[2] == e.cs && t[3] == e.eip && t[4] == e.cr2;
  }

  ghost predicate WriterOk(who: Writer) {
    who.Someone? ==> IsInt32(who.pid) && IsInt32(who.pgid)
  }

  /** The record of a call: milliseconds are cast to 32 bits, and nobody is 0. */
  function Stamped(now: nat, eip: nat, who: Writer, body: Body): Record {
    Record(now % WORD, eip, if who.Someone? then who.pid else 0, if who.Someone? then who.pgid else 0, body)
  }

  /** Record r says when, where, by whom and what. */
  ghost predicate Says(r: Record, now: nat, eip: nat, who: Writer, body: Body) {
    && r.ts == now % 0x1_0000_0000 && r.eip == eip && r.body == body
    && match who
       case Nobody => r.pid == 0 && r.pgid == 0
       case Someone(pid, pgid) => r.pid == pid && r.pgid == pgid
  }

  lemma {:induction false} EmitAllMore(rs: seq<Record>, r: Record)
    ensures EmitAll(rs + [r]) == EmitAll(rs) + Emit(r)
  {
    hide Emit;
    if rs == [] {
      assert ([] + [r])[1..] == [] && Emit(r) + [] == Emit(r);
    } else {
      assert (rs + [r])[1..] == rs[1..] + [r];
      EmitAllMore(rs[1..], r);
    }
  }

  /** Whoever reads all that was written has all records, in order, and nothing left over. */
  lemma ReadsBack(log: seq<Record>)
    requires AllFit(log)
    ensures Parse(EmitAll(log)) == Parsed(AllOnWire(log), [], false)
  {
    hide Parse, Emit, OnWire, Fits;
    var s := EmitAll(log);
    PrefixExact(log, |s|);
    assert s[..|s|] == s && log[..|log|] == log;
  }

  /** The port, and as a ghost what has been logged to it. */
  class LogWriter {
    var out: seq<Byte>
    ghost var log: seq<Record>

    ghost predicate Valid()
      reads this
    {
      AllFit(log) && out == EmitAll(log)
    }

    constructor ()
      ensures Valid() && log == []
    {
      out, log := [], [];
    }

    /** The 20 bytes of a Payload. */
    method WritePayload(now: nat, eip: nat, who: Writer, len: nat, kind: Byte, ext: Byte)
      modifies this`out
      ensures out == old(out) + Le4(now % WORD) + Le4(eip) + Le4(Unsigned(if who.Someone? then who.pid else 0))
                     + Le4(Unsigned(if who.Someone? then who.pgid else 0)) + Le2(len) + [kind, ext]
    {
      hide Le4, Le2;
      var ts := now % WORD;
      var (pid, pgid) := match who case Nobody => (0, 0) case Someone(p, g) => (p, g);
      out := out + Le4(ts) + Le4(eip) + Le4(Unsigned(pid)) + Le4(Unsigned(pgid));
      out := out + Le2(len) + [kind, ext];
    }

    ghost method Logged(r: Record)
      requires AllFit(log) && Fits(r) && out == EmitAll(log) + EmitHeader(r) + Content(r.body)
      modifies this`log
      ensures Valid() && log == old(log) + [r] && Parse(out) == Parsed(AllOnWire(log), [], false)
    {
      hide EmitHeader, Content, Fits, Parse;
      EmitAllMore(log, r);
      assert EmitAll(log) + EmitHeader(r) + Content(r.body) == EmitAll(log) + Emit(r);
      log := log + [r];
      ReadsBack(log);
    }

    method EmitLog(now: nat, eip: nat, who: Writer, level: Byte, text: seq<Byte>)
      requires Valid() && eip < WORD && WriterOk(who)
      modifies this
      ensures Valid() && |log| == |old(log)| + 1 && log[..|old(log)|] == old(log)
      ensures Says(log[|old(log)|], now, eip, who, Log(level, text))
      ensures Parse(out) == Parsed(AllOnWire(log), [], false)
    {
      hide Le4, Le2, Parse, AllFit, EmitAll;
      ghost var r := Stamped(now, eip, who, Log(level, text));
      var len := |text| % LEN_WRAP;
      WritePayload(now, eip, who, len, 0, level);
      assert out == old(out) + EmitHeader(r);
      out := out + text[..len];
      Logged(r);
    }

    method EmitSyscall(now: nat, eip: nat, who: Writer, role: Byte, content: SyscallContent)
      requires Valid() && eip < WORD && WriterOk(who) && AreWords(SyscallWords(content), 8)
      modifies this
      ensures Valid() && |log| == |old(log)| + 1 && log[..|old(log)|] == old(log)
      ensures Says(log[|old(log)|], now, eip, who, Syscall(role, SyscallWords(content)))
      ensures Parse(out) == Parsed(AllOnWire(log), [], false)
    {
      hide Le4, Le2, Parse, AllFit, EmitAll, SyscallWords, Words;
      ghost var r := Stamped(now, eip, who, Syscall(role, SyscallWords(content)));
      WritePayload(now, eip, who, 32, 1, role);
      assert out == old(out) + EmitHeader(r);
      out := out + Words(SyscallWords(content));
      Logged(r);
    }

    method EmitException(now: nat, eip: nat, who: Writer, content: ExceptionContent)
      requires Valid() && eip < WORD && WriterOk(who) && AreWords(ExceptionWords(content), 5)
      modifies this
      ensures Valid() && |log| == |old(log)| + 1 && log[..|old(log)|] == old(log)
      ensures Says(log[|old(log)|], now, eip, who, Exception(ExceptionWords(content)))
      ensures Parse(out) == Parsed(AllOnWire(log), [], false)
    {
      hide Le4, Le2, Parse, AllFit, EmitAll, ExceptionWords, Words;
      ghost var r := Stamped(now, eip, who, Exception(ExceptionWords(content)));
      WritePayload(now, eip, who, 20, 2, 0);
      assert out == old(out) + EmitHeader(r);
      out := out + Words(ExceptionWords(content));
      Logged(r);
    }

    method EmitFatal(now: nat, eip: nat, who: Writer)
      requires Valid() && eip < WORD && WriterOk(who)
      modifies this
      ensures Valid() && |log| == |old(log)| + 1 && log[..|old(log)|] == old(log)
      ensures Says(log[|old(log)|], now, eip, who, Fatal)
      ensures Parse(out) == Parsed(AllOnWire(log), [], false)
    {
      hide Le4, Le2, Parse, AllFit, EmitAll;
      ghost var r := Stamped(now, eip, who, Fatal);
      WritePayload(now, eip, who, 0, 3, 0);
      assert out == old(out) + EmitHeader(r);
      assert out == out + Content(Fatal);
      Logged(r);
    }
  }

  /** The generator.  Between chunks it rests inside waitForData, either for a header or for the body of the
      header it has read. */
  class Parser {
    var buffer: seq<Byte>
    var ptr: nat
    var header: Option<Header>
    var dead: bool
    ghost var taken: seq<Byte>

    ghost predicate Valid()
      reads this
    {
      && ptr <= |buffer|
      && match header
         case None => taken == []
         case Some(h) => |taken| == HEADER_BYTES && h == HeaderAt(taken, 0)
    }

    /** The bytes received and not yet part of an entry. */
    ghost function Pending(): seq<Byte>
      requires Valid()
      reads this
    {
      taken + buffer[ptr..]
    }

    constructor ()
      ensures Valid() && Pending() == [] && !dead
    {
      buffer, ptr, header, dead, taken := [], 0, None, false, [];
    }

    /** waitForData with the data at hand; otherwise drop what is consumed and rest. */
    method HasData(need: nat) returns (ok: bool)
      requires Valid()
      modifies this`buffer, this`ptr
      ensures Valid() && Pending() == old(Pending()) && buffer[ptr..] == old(buffer[ptr..])
              && (ok <==> ptr + need <= |buffer|)
    {
      ok := ptr + need <= |buffer|;
      if !ok {
        buffer := buffer[ptr..];
        ptr := 0;
      }
    }

    method ReadHeader() returns (ok: bool)
      requires Valid() && header.None?
      modifies this
      ensures Valid() && Pending() == old(Pending()) && dead == old(dead)
      ensures if ok then header.Some? else header.None? && |Pending()| < HEADER_BYTES
    {
      hide HeaderAt;
      ok := HasData(HEADER_BYTES);
      if ok {
        SliceHeader(buffer, ptr);
        header := Some(HeaderAt(buffer, ptr));
        taken := buffer[ptr..ptr + HEADER_BYTES];
        ptr := ptr + HEADER_BYTES;
        assert taken + buffer[ptr..] == old(Pending());
      }
    }

    /** The record whose header has been read, if all of its body is there. */
    method ReadBody() returns (d: Option<Decoded>)
      requires Valid() && header.Some?
      modifies this
      ensures Valid() && dead == old(dead)
      ensures match d
              case None => Pending() == old(Pending()) && FirstLen(Pending()) == None
              case Some(e) =>
                && FirstLen(old(Pending())).Some? && var n := FirstLen(old(Pending())).value;
                && e == Decode(HeaderAt(old(Pending()), 0), old(Pending())[HEADER_BYTES..n])
                && header.None? && Pending() == old(Pending())[n..]
    {
      hide HeaderAt, Decode;
      ghost var s := Pending();
      assert s[..HEADER_BYTES] == taken;
      HeaderLocal(taken, s);
      var len := header.value.len;
      var ok := HasData(len);
      if !ok {
        return None;
      }
      var content := buffer[ptr..ptr + len];
      assert content == s[HEADER_BYTES..HEADER_BYTES + len];
      d := Some(Decode(header.value, content));
      ptr := ptr + len;
      header, taken := None, [];
      assert Pending() == s[HEADER_BYTES + len..];
    }

    /** Entries come out until the data is used up. */
    method Feed(chunk: seq<Byte>) returns (entries: seq<Record>)
      requires Valid()
      modifies this
      ensures Valid()
      ensures old(dead) ==> entries == [] && dead
      ensures !old(dead) ==> var p := Parse(old(Pending()) + chunk);
                             entries == p.entries && dead == p.dead && (!dead ==> Pending() == p.rest)
    {
      hide Parse, Decode, HeaderAt, FirstLen;
      entries := [];
      if dead {
        return;
      }
      buffer := buffer + chunk;
      assert Pending() == old(Pending()) + chunk;
      while true
        invariant Valid() && !dead
        invariant Parse(old(Pending()) + chunk) == Prepend(entries, Parse(Pending()))
        decreases |Pending()|
      {
        if header.None? {
          var ok := ReadHeader();
          if !ok {
            TooShort(Pending());
            return;
          }
        }
        ghost var s := Pending();
        var d := ReadBody();
        if d.None? {
          ParseShort(Pending());
          return;
        }
        ParseFirst(s);
        if d.value == Throw {
          dead := true;
          return;
        }
        if d.value.Entry? {
          PrependMore(entries, d.value.record, Parse(Pending()));
          entries := entries + [d.value.record];
        }
      }
    }
  }

  function Prepend(entries: seq<Record>, p: Parsed): Parsed {
    p.(entries := entries + p.entries)
  }

  lemma PrependMore(entries: seq<Record>, r: Record, p: Parsed)
    ensures Prepend(entries, Prepend([r], p)) == Prepend(entries + [r], p)
  {
  }

  lemma TooShort(s: seq<Byte>)
    requires |s| < HEADER_BYTES
    ensures Parse(s) == Parsed([], s, false)
  {
  }

  lemma ParseFirst(s: seq<Byte>)
    requires FirstLen(s).Some?
    ensures var n := FirstLen(s).value;
            match Decode(HeaderAt(s, 0), s[HEADER_BYTES..n])
            case Throw => Parse(s) == Parsed([], s, true)
            case Skip => Parse(s) == Parse(s[n..])
            case Entry(r) => Parse(s) == Prepend([r], Parse(s[n..]))
  {
  }

  lemma SliceHeader(s: seq<Byte>, p: nat)
    requires p + HEADER_BYTES <= |s|
    ensures HeaderAt(s, p) == HeaderAt(s[p..p + HEADER_BYTES], 0)
  {
  }
}
