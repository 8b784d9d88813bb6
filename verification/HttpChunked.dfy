/** Bodies: the numerals that announce their lengths, the delivery of a body of known length, and
    the removal of chunk framing (section 4.1 of RFC 7230) from the response buffer. */
module HttpChunked {
  import opened Bytes
  import opened Llhttp
  import opened HttpContext
  import opened HttpSpan
  import opened HttpBulk
  import opened HttpReceive

  // ---- numerals ----

  function DigitValue(base: nat, c: byte): nat {
    if base == 10 then (if IsDecimal(c) then c - 48 else 10) else HexDigit(c)
  }

  predicate Digits(base: nat, t: bytes) {
    forall i | 0 <= i < |t| :: DigitValue(base, t[i]) < base
  }

  /** The number written by the digits t after a number v. */
  function Numeral(base: nat, v: nat, t: bytes): nat
    decreases |t|
  {
    if t == [] then v else Numeral(base, v * base + DigitValue(base, t[0]), t[1..])
  }

  /** The 64-bit accumulator is exact, and reports an overflow exactly when the number does not fit. */
  lemma MulAddExact(value: nat, base: nat, digit: nat)
    requires 1 < base <= 16 && digit < base && value <= MAX_UINT64
    ensures MulAdd(value, base, digit).overflow <==> value * base + digit > MAX_UINT64
    ensures !MulAdd(value, base, digit).overflow ==> MulAdd(value, base, digit).value == value * base + digit
  {
    if value > MAX_UINT64 / base {
      assert value >= MAX_UINT64 / base + 1;
      assert value * base >= (MAX_UINT64 / base + 1) * base;
    }
  }

  lemma {:induction false} NumeralGrows(base: nat, v: nat, t: bytes)
    requires base > 0
    ensures v <= Numeral(base, v, t)
    decreases |t|
  {
    if t != [] {
      assert v <= v * base;
      NumeralGrows(base, v * base + DigitValue(base, t[0]), t[1..]);
    }
  }

  /** A byte that is consumed outside a span without any callback. */
  lemma QuietStep(s: State, x: Context, c: byte)
    requires Inv(s) && s.error == 0
    requires Step(s, c).eaten && Step(s, c).items == []
    ensures Inv(Step(s, c).s) && Absorb(System(s, x), c) == System(Step(s, c).s, Grow(x, c))
  {
    AbsorbStep(System(s, x), c);
    hide Step, Apply, Absorb;
  }

  /** A dispatch that leaves the byte in place without any callback. */
  lemma QuietMove(s: State, x: Context, c: byte)
    requires Inv(s) && s.error == 0
    requires !Step(s, c).eaten && Step(s, c).items == [] && Step(s, c).s.error == 0
    ensures Inv(Step(s, c).s) && Absorb(System(s, x), c) == Absorb(System(Step(s, c).s, x), c)
  {
    AbsorbStep(System(s, x), c);
    hide Step, Apply, Absorb;
  }

  lemma SizeStep(s: State, c: byte)
    requires Inv(s) && s.error == 0 && s.index == 0 && (s.node == InBody(ChunkSizeDigit) || s.node == InBody(ChunkSize))
    requires HexDigit(c) < 16
    ensures var v := s.contentLength * 16 + HexDigit(c);
            if v > MAX_UINT64 then Step(s, c).s.error == HPE_INVALID_CHUNK_SIZE
            else Step(s, c).eaten && Step(s, c).items == []
                 && Step(s, c).s == s.(node := InBody(ChunkSize), contentLength := v)
  {
    hide HexDigit, MulAdd;
    MulAddExact(s.contentLength, 16, HexDigit(c));
  }

  lemma SizeOne(s: State, x: Context, t: bytes)
    requires Inv(s) && s.error == 0 && s.index == 0 && (s.node == InBody(ChunkSizeDigit) || s.node == InBody(ChunkSize))
    requires t != [] && HexDigit(t[0]) < 16
    ensures var v := s.contentLength * 16 + HexDigit(t[0]); var u := s.(node := InBody(ChunkSize), contentLength := v);
            if v > MAX_UINT64 then AbsorbAll(System(s, x), t).parser.error == HPE_INVALID_CHUNK_SIZE
            else Inv(u) && AbsorbAll(System(s, x), t) == AbsorbAll(System(u, Grow(x, t[0])), t[1..])
  {
    hide HexDigit, Step, Rank, Sequence, AbsorbAll, Absorb;
    SizeStep(s, t[0]);
    AbsorbAllStep(System(s, x), t);
    AbsorbStep(System(s, x), t[0]);
    if s.contentLength * 16 + HexDigit(t[0]) > MAX_UINT64 {
      ErrorStays(Absorb(System(s, x), t[0]), t[1..]);
    } else {
      QuietStep(s, x, t[0]);
    }
  }

  /** A chunk size is the number its hexadecimal digits write, and a number that does not fit 64 bits
      is an error. */
  lemma {:induction false} ChunkSizeRun(s: State, x: Context, t: bytes)
    requires Inv(s) && s.error == 0 && s.index == 0 && Digits(16, t)
    requires s.node == InBody(ChunkSize) || (s.node == InBody(ChunkSizeDigit) && t != [])
    ensures var v := Numeral(16, s.contentLength, t); var w := AbsorbAll(System(s, x), t);
            if v > MAX_UINT64 then w.parser.error == HPE_INVALID_CHUNK_SIZE
            else w == System(s.(node := InBody(ChunkSize), contentLength := v), After(x, t))
    decreases |t|
  {
    hide Absorb, Inv, Step, HexDigit;
    if t == [] {
      assert After(x, t) == x;
      assert s.contentLength <= MAX_UINT64 by { LengthFits(s); }
    } else {
      SizeOne(s, x, t);
      var v := s.contentLength * 16 + HexDigit(t[0]);
      NumeralGrows(16, v, t[1..]);
      if v <= MAX_UINT64 {
        ChunkSizeRun(s.(node := InBody(ChunkSize), contentLength := v), Grow(x, t[0]), t[1..]);
        assert x.buf + [t[0]] + t[1..] == x.buf + t;
      }
    }
  }

  lemma LengthFits(s: State)
    requires Inv(s) && s.error == 0
    ensures s.contentLength <= MAX_UINT64
  {
    hide Sequence;
  }

  lemma LengthStep(v: System, t: bytes)
    requires var s := v.parser; Inv(s) && s.error == 0 && s.node == InValue(HeaderValueContentLength)
    requires t != [] && IsDecimal(t[0])
    ensures var n := v.parser.contentLength * 10 + (t[0] - 48); var u := v.parser.(contentLength := n);
            if n > MAX_UINT64 then AbsorbAll(v, t).parser.error == HPE_INVALID_CONTENT_LENGTH
            else Absorb(v, t[0]).parser == u && Inv(u)
  {
    hide Rank, Sequence, AbsorbAll, Absorb, MulAdd, SpanOf, Apply;
    MulAddExact(v.parser.contentLength, 10, t[0] - 48);
    AbsorbAllStep(v, t);
    AbsorbStep(v, t[0]);
    if v.parser.contentLength * 10 + (t[0] - 48) > MAX_UINT64 {
      ErrorStays(Absorb(v, t[0]), t[1..]);
    }
  }

  /** A content length is the number its decimal digits write, and a number that does not fit 64
      bits is an error. */
  lemma {:induction false} ContentLengthRun(v: System, t: bytes)
    requires var s := v.parser; Inv(s) && s.error == 0 && s.node == InValue(HeaderValueContentLength)
    requires Digits(10, t)
    ensures var n := Numeral(10, v.parser.contentLength, t); var w := AbsorbAll(v, t).parser;
            if n > MAX_UINT64 then w.error == HPE_INVALID_CONTENT_LENGTH else w == v.parser.(contentLength := n)
    decreases |t|
  {
    hide Absorb, Inv, Step;
    if t == [] {
      assert v.parser.contentLength <= MAX_UINT64 by { LengthFits(v.parser); }
    } else {
      assert DigitValue(10, t[0]) < 10;
      LengthStep(v, t);
      var n := v.parser.contentLength * 10 + (t[0] - 48);
      NumeralGrows(10, n, t[1..]);
      if n <= MAX_UINT64 {
        ContentLengthRun(Absorb(v, t[0]), t[1..]);
      }
    }
  }

  // ---- bodies of known length ----

  /** The body assembled so far. */
  function BodyText(x: Context): bytes {
    if x.body.Some? then Slice(x.buf, x.body.value, x.bodyLen) else []
  }

  /** What comes before the body in the buffer. */
  function BeforeBody(x: Context): bytes {
    if x.body.Some? && x.body.value <= |x.buf| then x.buf[..x.body.value] else x.buf
  }

  /** y is x with data added to its body; nothing else has changed, and only bytes between the end of
      the body and the end of the input may differ in the buffer. */
  predicate Extended(x: Context, y: Context, data: bytes) {
    && Within(y, |y.buf|) && y.body.Some?
    && BodyText(y) == BodyText(x) + data
    && y.bodyLen == (if x.body.Some? then x.bodyLen else 0) + |data|
    && |BeforeBody(x)| <= y.body.value && y.buf[..|BeforeBody(x)|] == BeforeBody(x)
    && y == x.(body := y.body, bodyLen := y.bodyLen, buf := y.buf)
    && (x.body.Some? ==> y.body == x.body)
  }

  /** A piece of body at the end of the input extends the body by its bytes. */
  lemma PieceExtends(x: Context, t: bytes)
    requires Within(x, |x.buf|)
    ensures Extended(x, OnPiece(After(x, t), Body, |x.buf|, |t|), t)
    ensures |OnPiece(After(x, t), Body, |x.buf|, |t|).buf| == |x.buf| + |t|
  {
    hide Moved, OnPiece, Extended, Within;
    var start := if x.body.None? then |x.buf| else x.body.value;
    var d := if x.body.None? then |x.buf| else x.body.value + x.bodyLen;
    BodyWithin(x);
    var b := if |x.buf| > d then Moved(x.buf + t, d, |x.buf|, |t|) else x.buf + t;
    PieceIs(x, t, start, d, b);
    if |x.buf| > d {
      PieceMoves(x.buf, t, d);
    }
    BufExtends(x, t, start, d, b);
  }

  lemma PieceIs(x: Context, t: bytes, start: nat, d: nat, b: bytes)
    requires start == (if x.body.None? then |x.buf| else x.body.value)
    requires d == (if x.body.None? then |x.buf| else x.body.value + x.bodyLen)
    requires b == if |x.buf| > d then Moved(x.buf + t, d, |x.buf|, |t|) else x.buf + t
    ensures OnPiece(After(x, t), Body, |x.buf|, |t|) == x.(body := Some(start), bodyLen := d - start + |t|, buf := b)
  {
    hide Moved;
  }

  lemma BufExtends(x: Context, t: bytes, start: nat, d: nat, b: bytes)
    requires Within(x, |x.buf|) && start <= d <= |x.buf| && |b| == |x.buf| + |t|
    requires start == (if x.body.None? then |x.buf| else x.body.value)
    requires d == (if x.body.None? then |x.buf| else x.body.value + x.bodyLen)
    requires b[..d] == (x.buf + t)[..d] && b[d..d + |t|] == t
    ensures Extended(x, x.(body := Some(start), bodyLen := d - start + |t|, buf := b), t)
  {
    TailReplaced(x.buf, b, t, start, d);
    hide Slice;
  }

  lemma BodyWithin(x: Context)
    requires Within(x, |x.buf|)
    ensures x.body.Some? ==> x.body.value + x.bodyLen <= |x.buf|
    ensures forall t :: Within(After(x, t), |x.buf|)
  {
  }

  lemma TailReplaced(b: bytes, y: bytes, t: bytes, start: nat, d: nat)
    requires start <= d <= |b| && d + |t| <= |y| && y[..d] == (b + t)[..d] && y[d..d + |t|] == t
    ensures y[start..d + |t|] == b[start..d] + t && y[..start] == b[..start]
  {
    assert (b + t)[..d] == b[..d];
    assert y[start..d] == y[..d][start..] == b[start..d];
    assert y[..start] == y[..d][..start];
    assert y[start..d + |t|] == y[start..d] + y[d..d + |t|];
  }

  lemma PieceMoves(b: bytes, t: bytes, d: nat)
    requires d <= |b|
    ensures Moved(b + t, d, |b|, |t|)[..d] == (b + t)[..d]
    ensures Moved(b + t, d, |b|, |t|)[d..d + |t|] == t
  {
    assert (b + t)[|b|..|b| + |t|] == t;
  }

  lemma ExtendedAfter(x: Context, a: bytes, y: Context, data: bytes, b: bytes)
    requires Within(x, |x.buf|) && Extended(After(x, a), y, data)
    ensures Extended(x, After(y, b), data)
  {
    var z := After(y, b);
    assert Within(z, |z.buf|);
    var h := |BeforeBody(x)|;
    assert BeforeBody(After(x, a))[..h] == BeforeBody(x);
    assert y.buf[..h] == y.buf[..|BeforeBody(After(x, a))|][..h];
    assert z.buf[..h] == y.buf[..h];
    assert BodyText(z) ==
           BodyText(y) by { assert z.buf[y.body.value..y.body.value + y.bodyLen] == y.buf[y.body.value..y.body.value
             + y.bodyLen]; }
    BodyTextAfter(x, a);
  }

  lemma BodyTextAfter(x: Context, a: bytes)
    requires Within(x, |x.buf|)
    ensures BodyText(After(x, a)) == BodyText(x)
  {
  }

  lemma ExtendedTwice(x: Context, y: Context, z: Context, d: bytes, e: bytes)
    requires Extended(x, y, d) && Extended(y, z, e)
    ensures Extended(x, z, d + e)
  {
    HeadTwice(x, y, z, d, e);
    hide BeforeBody, BodyText, Slice, Within;
    assert BodyText(x) + d + e == BodyText(x) + (d + e);
  }

  lemma HeadTwice(x: Context, y: Context, z: Context, d: bytes, e: bytes)
    requires Extended(x, y, d) && Extended(y, z, e)
    ensures |BeforeBody(x)| <= z.body.value && z.buf[..|BeforeBody(x)|] == BeforeBody(x)
  {
    var h := |BeforeBody(x)|;
    HeadKept(x, y, d);
    hide BodyText, Slice;
    assert y.buf[..h] == BeforeBody(y)[..h];
    assert z.buf[..h] == z.buf[..|BeforeBody(y)|][..h];
  }

  lemma HeadKept(x: Context, y: Context, d: bytes)
    requires Extended(x, y, d)
    ensures |BeforeBody(x)| <= |BeforeBody(y)|
  {
  }

  lemma ExtendedByNothing(x: Context, a: bytes)
    requires Within(x, |x.buf|) && x.body.Some?
    ensures Extended(x, After(x, a), [])
  {
    assert After(x, a).buf[x.body.value..x.body.value + x.bodyLen] == x.buf[x.body.value..x.body.value + x.bodyLen];
  }

  lemma CutSystem(s: State, x: Context)
    requires Cut(s, x, |x.buf|)
    ensures Virtual(s, x, |x.buf|) == System(s, x) && Within(x, |x.buf|) && Inv(s) && s.error == 0
  {
    hide Within, SpanOf, Inv;
  }

  lemma VirtualBody(s: State, x: Context, t: bytes)
    requires SpanOf(s) == Some(Body)
    ensures Virtual(s, After(x, t), |x.buf|).parser == s
    ensures Virtual(s, After(x, t), |x.buf|).context == if t == [] then x else OnPiece(After(x, t), Body, |x.buf|, |t|)
  {
    hide OnPiece, SpanOf;
    assert t == [] ==> After(x, t) == x;
  }

  lemma DeliveredBody(s: State, x: Context, t: bytes)
    ensures var y := OnPiece(After(x, t), Body, |x.buf|, |t|);
            Delivered(s, After(x, t), |x.buf|) == if s.node == InBody(ConsumeContentLength) then y else Completed(y)
  {
    hide OnPiece;
  }

  lemma NothingMore(v: System)
    requires Inv(v.parser)
    ensures AbsorbAll(v, []) == v
  {
    hide Absorb, Inv;
  }

  /** While a body of known length is consumed, what has been delivered and what content_length still
      holds add up; with the last byte the body is there as it was sent. */
  lemma BodyConserved(s: State, x: Context, t: bytes)
    requires Cut(s, x, |x.buf|) && Consuming(s) && |t| <= s.contentLength
    ensures var w := AbsorbAll(System(s, x), t);
            if |t| < s.contentLength then
              && w.parser == s.(contentLength := s.contentLength - |t|)
              && (if t == [] then w.context == x else Extended(x, w.context, t))
            else
              var y := OnPiece(After(x, t), Body, |x.buf|, |t|);
              && w.parser == BodyDone(s) && Extended(x, y, t)
              && w.context == if s.node == InBody(ConsumeContentLength) then y else Completed(y)
  {
    hide *;
    CutSystem(s, x);
    PieceExtends(x, t);
    BodySpan(s);
    if |t| < s.contentLength {
      ConsumedRun(s, x, |x.buf|, t);
      VirtualBody(s.(contentLength := s.contentLength - |t|), x, t);
    } else {
      BodyFed(s, x, |x.buf|, t);
      assert t[..s.contentLength] == t && t[s.contentLength..] == [];
      DeliveredBody(s, x, t);
      var z := Delivered(s, After(x, t), |x.buf|);
      if BodyDone(s).error == 0 {
        CutSystem(BodyDone(s), z);
        NothingMore(System(BodyDone(s), z));
      } else {
        var u := s.(upgrade := false);
        OnlyUpgrade(s, x);
        BodyFed(u, x, |x.buf|, t);
        DeliveredBody(u, x, t);
        CutSystem(u, x);
        CutSystem(BodyDone(u), z);
        NothingMore(System(BodyDone(u), z));
        UpgradeIgnored(s, x, t);
      }
    }
  }

  /** A message is refused at its end only if it switches protocols. */
  lemma OnlyUpgrade(s: State, x: Context)
    requires Cut(s, x, |x.buf|) && Consuming(s)
    ensures var u := s.(upgrade := false);
            && Cut(u, x, |x.buf|) && Consuming(u) && BodyDone(u).error == 0 && u.contentLength == s.contentLength
            && forall y :: Delivered(u, y, |x.buf|) == Delivered(s, y, |x.buf|)
  {
    hide Within, ShouldKeepAlive, Sequence, OnPiece;
  }

  /** The callbacks of a body do not depend on a switch of protocols. */
  lemma UpgradeIgnored(s: State, x: Context, t: bytes)
    requires Cut(s, x, |x.buf|) && Consuming(s) && |t| == s.contentLength && Inv(s) && Inv(s.(upgrade := false))
    ensures AbsorbAll(System(s, x), t).context == AbsorbAll(System(s.(upgrade := false), x), t).context
  {
    hide *;
    var u := s.(upgrade := false);
    OnlyUpgrade(s, x);
    CutSystem(s, x);
    CutSystem(u, x);
    LengthLeft(s);
    var m := |t| - 1;
    var part := t[..m];
    assert t == part + t[m..] && t[m..] == [t[m]];
    ConsumedRun(s, x, |x.buf|, part);
    ConsumedRun(u, x, |x.buf|, part);
    SplitInvariance(System(s, x), part, t[m..]);
    SplitInvariance(System(u, x), part, t[m..]);
    VirtualBody(s.(contentLength := s.contentLength - m), x, part);
    VirtualBody(u.(contentLength := u.contentLength - m), x, part);
    LastLeft(s, m);
    LastContext(s.(contentLength := 1), AbsorbAll(System(s, x), part).context, t[m]);
  }

  lemma LastLeft(s: State, m: nat)
    requires Inv(s) && Consuming(s) && s.error == 0 && m + 1 == s.contentLength
    ensures var w := s.(contentLength := s.contentLength - m);
            && w == s.(contentLength := 1) && Inv(w) && Consuming(w)
            && Inv(w.(upgrade := false))
            && s.(upgrade := false).(contentLength := s.contentLength - m) == w.(upgrade := false)
  {
    hide Sequence;
  }

  lemma LastContext(s: State, x: Context, c: byte)
    requires Inv(s) && Inv(s.(upgrade := false)) && s.error == 0 && Consuming(s) && s.contentLength == 1
    ensures AbsorbAll(System(s, x), [c]).context == AbsorbAll(System(s.(upgrade := false), x), [c]).context
  {
    var u := s.(upgrade := false);
    assert Consuming(u);
    assert [c][1..] == [];
    hide *;
    LastByte(s, c);
    LastByte(u, c);
    AbsorbAllStep(System(s, x), [c]);
    AbsorbAllStep(System(u, x), [c]);
    AbsorbStep(System(s, x), c);
    AbsorbStep(System(u, x), c);
    NothingMore(Absorb(System(s, x), c));
    NothingMore(Absorb(System(u, x), c));
  }

  // ---- chunks ----

  /** A chunk of section 4.1 of RFC 7230: its size as it is written, an extension, and its data. */
  datatype Chunk = Chunk(size: bytes, extension: bytes, data: bytes)

  predicate IsExtension(t: bytes) {
    t == [] || ((t[0] == SP || t[0] == 59) && CR !in t)
  }

  predicate IsSize(t: bytes, n: nat) {
    t != [] && Digits(16, t) && Numeral(16, 0, t) == n <= MAX_UINT64
  }

  predicate IsChunk(c: Chunk) {
    IsSize(c.size, |c.data|) && c.data != [] && IsExtension(c.extension)
  }

  function ChunkLine(size: bytes, extension: bytes): bytes {
    size + extension + [CR, LF]
  }

  function ChunkBytes(c: Chunk): bytes {
    ChunkLine(c.size, c.extension) + c.data + [CR, LF]
  }

  function AllChunks(cs: seq<Chunk>): bytes {
    if cs == [] then [] else ChunkBytes(cs[0]) + AllChunks(cs[1..])
  }

  function AllData(cs: seq<Chunk>): bytes {
    if cs == [] then [] else cs[0].data + AllData(cs[1..])
  }

  /** A quiet byte at the front of the input. */
  lemma QuietFirst(s: State, u: State, x: Context, t: bytes)
    requires Inv(s) && s.error == 0 && t != []
    requires Step(s, t[0]).eaten && Step(s, t[0]).items == [] && Step(s, t[0]).s == u
    ensures Inv(u) && AbsorbAll(System(s, x), t) == AbsorbAll(System(u, After(x, [t[0]])), t[1..])
  {
    hide Step, AbsorbAll, Absorb, Inv;
    QuietStep(s, x, t[0]);
    AbsorbAllStep(System(s, x), t);
  }

  /** A dispatch that leaves the first byte in place. */
  lemma MoveFirst(s: State, u: State, x: Context, t: bytes)
    requires Inv(s) && s.error == 0 && t != []
    requires !Step(s, t[0]).eaten && Step(s, t[0]).items == [] && Step(s, t[0]).s == u && u.error == 0
    ensures Inv(u) && AbsorbAll(System(s, x), t) == AbsorbAll(System(u, x), t)
  {
    hide Step, AbsorbAll, Absorb, Inv;
    QuietMove(s, x, t[0]);
    AbsorbAllStep(System(s, x), t);
    AbsorbAllStep(System(u, x), t);
  }

  /** The parser after the head of a chunk line. */
  predicate InChunkLine(s: State) {
    Inv(s) && s.error == 0 && s.index == 0 && (s.node == InBody(ChunkSize) || s.node == InBody(ChunkParameters))
  }

  lemma ExtensionFirst(s: State, x: Context, t: bytes)
    requires InChunkLine(s) && t != [] && t[0] != CR
    requires s.node == InBody(ChunkSize) ==> t[0] == SP || t[0] == 59
    ensures var u := s.(node := InBody(ChunkParameters));
            InChunkLine(u) && AbsorbAll(System(s, x), t) == AbsorbAll(System(u, After(x, [t[0]])), t[1..])
  {
    hide AbsorbAll, Rank, Sequence;
    var u := s.(node := InBody(ChunkParameters));
    if s.node == InBody(ChunkSize) {
      var m := s.(node := InBody(ChunkSizeOtherwise));
      MoveFirst(s, m, x, t);
      QuietFirst(m, u, x, t);
    } else {
      QuietFirst(s, u, x, t);
    }
  }

  /** An extension is skipped. */
  lemma {:induction false} ExtensionRun(s: State, x: Context, t: bytes, rest: bytes)
    requires InChunkLine(s) && CR !in t && (s.node == InBody(ChunkSize) ==> IsExtension(t))
    ensures var u := if t == [] then s else s.(node := InBody(ChunkParameters));
            InChunkLine(u) && AbsorbAll(System(s, x), t + rest) == AbsorbAll(System(u, After(x, t)), rest)
    decreases |t|
  {
    hide AbsorbAll, Inv;
    if t == [] {
      assert t + rest == rest && After(x, t) == x;
    } else {
      ExtensionFirst(s, x, t + rest);
      assert (t + rest)[1..] == t[1..] + rest && (t + rest)[0] == t[0];
      var u := s.(node := InBody(ChunkParameters));
      ExtensionRun(u, After(x, [t[0]]), t[1..], rest);
      assert After(After(x, [t[0]]), t[1..]) == After(x, t) by { assert x.buf + [t[0]] + t[1..] == x.buf + t; }
    }
  }

  /** The parser after the line of a chunk of n bytes. */
  function LineDone(s: State, n: nat): State {
    if n == 0 then s.(node := InField(HeaderFieldStart), contentLength := 0, flags := s.flags.(trailing := true))
    else s.(node := InBody(SpanStartBody), contentLength := n)
  }

  /** The carriage return of a chunk line. */
  lemma LineReturns(s: State, x: Context, t: bytes)
    requires InChunkLine(s) && t != [] && t[0] == CR
    ensures var m := s.(node := InBody(ChunkSizeAlmostDone));
            && Inv(m) && m.error == 0 && m.index == 0
            && AbsorbAll(System(s, x), t) == AbsorbAll(System(m, After(x, [CR])), t[1..])
  {
    hide AbsorbAll, Rank, Sequence;
    var m := s.(node := InBody(ChunkSizeAlmostDone));
    if s.node == InBody(ChunkSize) {
      var o := s.(node := InBody(ChunkSizeOtherwise));
      MoveFirst(s, o, x, t);
      QuietFirst(o, m, x, t);
    } else {
      QuietFirst(s, m, x, t);
    }
  }

  lemma LineEnds(s: State, x: Context, rest: bytes)
    requires InChunkLine(s)
    ensures Inv(LineDone(s, s.contentLength))
    ensures AbsorbAll(System(s, x), [CR, LF] + rest) ==
            AbsorbAll(System(LineDone(s, s.contentLength), After(x, [CR, LF])), rest)
  {
    hide AbsorbAll, Rank, Sequence, InChunkLine;
    var t := [CR, LF] + rest;
    assert t[1..] == [LF] + rest && t[1..][1..] == rest;
    LineReturns(s, x, t);
    QuietFirst(s.(node := InBody(ChunkSizeAlmostDone)), LineDone(s, s.contentLength), After(x, [CR]), t[1..]);
    assert x.buf + [CR] + [LF] == x.buf + [CR, LF];
  }

  /** The parser stands before a chunk. */
  predicate BeforeChunk(s: State) {
    Inv(s) && s.error == 0 && s.index == 0 && s.node == InBody(ChunkSizeDigit) && s.contentLength == 0
  }

  /** The line that starts a chunk. */
  lemma LineRun(s: State, x: Context, size: bytes, extension: bytes, n: nat, rest: bytes)
    requires BeforeChunk(s) && IsSize(size, n) && IsExtension(extension)
    ensures var line := ChunkLine(size, extension);
            && Inv(LineDone(s, n))
            && AbsorbAll(System(s, x), line + rest) == AbsorbAll(System(LineDone(s, n), After(x, line)), rest)
  {
    hide *;
    var tail := extension + ([CR, LF] + rest);
    var u := s.(node := InBody(ChunkSize), contentLength := n);
    var v := if extension == [] then u else u.(node := InBody(ChunkParameters));
    LineParts(s, u, v, size, extension, n, rest);
    SplitInvariance(System(s, x), size, tail);
    ChunkSizeRun(s, x, size);
    ExtensionRun(u, After(x, size), extension, [CR, LF] + rest);
    LineEnds(v, After(After(x, size), extension), rest);
    AfterTwice(x, size, extension);
    AfterTwice(x, size + extension, [CR, LF]);
  }

  lemma LineParts(s: State, u: State, v: State, size: bytes, extension: bytes, n: nat, rest: bytes)
    requires BeforeChunk(s) && IsSize(size, n) && IsExtension(extension)
    requires u == s.(node := InBody(ChunkSize), contentLength := n)
    requires v == if extension == [] then u else u.(node := InBody(ChunkParameters))
    ensures Inv(s) && s.error == 0 && s.index == 0 && s.node == InBody(ChunkSizeDigit) && s.contentLength == 0
    ensures size != [] && Digits(16, size) && Numeral(16, 0, size) == n && !(n > MAX_UINT64) && InChunkLine(u)
    ensures CR !in extension && LineDone(v, n) == LineDone(s, n) && v.contentLength == n && u.node == InBody(ChunkSize)
    ensures ChunkLine(size, extension) == size + extension + [CR, LF]
    ensures ChunkLine(size, extension) + rest == size + (extension + ([CR, LF] + rest))
  {
    assert extension != [] ==> SP != CR;
    hide Digits, Numeral, Sequence;
  }

  lemma BodyStarts(s: State, x: Context, t: bytes)
    requires BeforeChunk(s) && t != [] && |t| <= MAX_UINT64 && Within(x, |x.buf|)
    ensures var u := s.(node := InBody(ConsumeContentLength), contentLength := |t|);
            && Inv(LineDone(s, |t|)) && Cut(u, x, |x.buf|) && Consuming(u)
            && AbsorbAll(System(LineDone(s, |t|), x), t) == AbsorbAll(System(u, x), t)
            && BodyDone(u) == s.(node := InBody(ChunkDataAlmostDone))
  {
    hide AbsorbAll, Rank, Sequence, Within;
    MoveFirst(LineDone(s, |t|), s.(node := InBody(ConsumeContentLength), contentLength := |t|), x, t);
  }

  lemma DataEnds(s: State, x: Context, rest: bytes)
    requires BeforeChunk(s)
    ensures var u := s.(node := InBody(ChunkDataAlmostDone));
            Inv(u) && AbsorbAll(System(u, x), [CR, LF] + rest) == AbsorbAll(System(s, After(x, [CR, LF])), rest)
  {
    hide AbsorbAll, Rank, Sequence;
    var t := [CR, LF] + rest;
    assert t[1..] == [LF] + rest && t[1..][1..] == rest;
    var m := s.(node := InBody(ChunkDataAlmostDoneSkip));
    QuietFirst(s.(node := InBody(ChunkDataAlmostDone)), m, x, t);
    QuietFirst(m, s, After(x, [CR]), t[1..]);
    assert x.buf + [CR] + [LF] == x.buf + [CR, LF];
  }

  /** The context after the data of a chunk, and its line break. */
  function AfterChunk(x: Context, c: Chunk): Context {
    var y := After(x, ChunkLine(c.size, c.extension));
    After(OnPiece(After(y, c.data), Body, |y.buf|, |c.data|), [CR, LF])
  }

  lemma AfterWithin(x: Context, t: bytes)
    requires Within(x, |x.buf|)
    ensures Within(After(x, t), |After(x, t).buf|)
  {
  }

  /** A whole chunk leaves the parser where it was, and its data at the end of the body. */
  lemma ChunkRun(s: State, x: Context, c: Chunk, rest: bytes)
    requires BeforeChunk(s) && IsChunk(c) && Within(x, |x.buf|)
    ensures Inv(s) && AbsorbAll(System(s, x), ChunkBytes(c) + rest) == AbsorbAll(System(s, AfterChunk(x, c)), rest)
    ensures Extended(x, AfterChunk(x, c), c.data)
  {
    hide *;
    ChunkParts(s, c, rest);
    var line := ChunkLine(c.size, c.extension);
    var tail := c.data + ([CR, LF] + rest);
    LineRun(s, x, c.size, c.extension, |c.data|, tail);
    var y := After(x, line);
    AfterWithin(x, line);
    BodyStarts(s, y, c.data);
    var u := s.(node := InBody(ConsumeContentLength), contentLength := |c.data|);
    BodyConserved(u, y, c.data);
    SplitInvariance(System(LineDone(s, |c.data|), y), c.data, [CR, LF] + rest);
    var z := OnPiece(After(y, c.data), Body, |y.buf|, |c.data|);
    DataEnds(s, z, rest);
    ExtendedAfter(x, line, z, c.data, [CR, LF]);
    AfterChunkIs(x, c);
  }

  lemma AfterChunkIs(x: Context, c: Chunk)
    ensures var y := After(x, ChunkLine(c.size, c.extension));
            AfterChunk(x, c) == After(OnPiece(After(y, c.data), Body, |y.buf|, |c.data|), [CR, LF])
  {
    hide OnPiece;
  }

  lemma ChunkParts(s: State, c: Chunk, rest: bytes)
    requires BeforeChunk(s) && IsChunk(c)
    ensures ChunkBytes(c) + rest == ChunkLine(c.size, c.extension) + (c.data + ([CR, LF] + rest))
    ensures IsSize(c.size, |c.data|) && IsExtension(c.extension) && c.data != [] && |c.data| <= MAX_UINT64
    ensures Inv(s) && s.error == 0 && s.(node := InBody(ChunkDataAlmostDone)).error == 0
  {
    hide Digits, Numeral, ChunkLine, Inv;
  }

  lemma ExtendedWithin(x: Context, y: Context, d: bytes)
    requires Extended(x, y, d)
    ensures Within(y, |y.buf|) && y.body.Some?
  {
  }

  /** Any number of chunks: the body grows by all their data. */
  lemma {:induction false} ChunksRun(s: State, x: Context, cs: seq<Chunk>, rest: bytes) returns (y: Context)
    requires BeforeChunk(s) && Within(x, |x.buf|) && forall i | 0 <= i < |cs| :: IsChunk(cs[i])
    ensures Inv(s) && AbsorbAll(System(s, x), AllChunks(cs) + rest) == AbsorbAll(System(s, y), rest)
    ensures if cs == [] then y == x else Extended(x, y, AllData(cs))
    decreases |cs|
  {
    hide AbsorbAll, IsChunk, ChunkBytes, AfterChunk, Within, Extended, Inv;
    if cs == [] {
      assert AllChunks(cs) + rest == rest;
      y := x;
      assert Inv(s);
    } else {
      assert AllChunks(cs) + rest == ChunkBytes(cs[0]) + (AllChunks(cs[1..]) + rest);
      ChunkRun(s, x, cs[0], AllChunks(cs[1..]) + rest);
      var z := AfterChunk(x, cs[0]);
      ExtendedWithin(x, z, cs[0].data);
      y := ChunksRun(s, z, cs[1..], rest);
      if |cs| > 1 {
        ExtendedTwice(x, z, y, cs[0].data, AllData(cs[1..]));
      } else {
        assert cs[0].data + AllData(cs[1..]) == cs[0].data;
      }
    }
  }

  // ---- the end of a chunked message ----

  /** The blank line after the last chunk. */
  lemma LastLine(s: State, x: Context)
    requires BeforeChunk(s)
    ensures var v := AbsorbAll(System(LineDone(s, 0), x), [CR, LF]);
            && v.parser == MessageComplete(s.(flags := s.flags.(trailing := true)))
            && v.context == Completed(After(x, [CR, LF]))
  {
    hide AbsorbAll, Rank, Sequence, Absorb, ShouldKeepAlive;
    var u := LineDone(s, 0);
    var m := u.(node := InBody(HeadersAlmostDone));
    assert [CR, LF][1..] == [LF];
    QuietFirst(u, m, x, [CR, LF]);
    NodeForgotten(m, s.(flags := s.flags.(trailing := true)));
    LastBreak(m, After(x, [CR]));
    assert x.buf + [CR] + [LF] == x.buf + [CR, LF];
  }

  lemma NodeForgotten(m: State, n: State)
    requires m == n.(node := m.node)
    ensures MessageComplete(m) == MessageComplete(n)
  {
  }

  lemma LastBreak(m: State, x: Context)
    requires Inv(m) && m.error == 0 && m.node == InBody(HeadersAlmostDone) && m.flags.trailing
    ensures AbsorbAll(System(m, x), [LF]) == System(MessageComplete(m), Completed(After(x, [LF])))
  {
    hide AbsorbAll, Rank, Sequence, Absorb, MessageComplete;
    AbsorbAllStep(System(m, x), [LF]);
    AbsorbStep(System(m, x), LF);
    ApplyOne(Grow(x, LF), Done, |x.buf|);
    NothingMore(Absorb(System(m, x), LF));
  }

  /** The bytes of a chunked body without trailers. */
  function ChunkedBody(cs: seq<Chunk>, last: bytes, extension: bytes): bytes {
    AllChunks(cs) + (ChunkLine(last, extension) + [CR, LF])
  }

  predicate IsChunkedBody(cs: seq<Chunk>, last: bytes, extension: bytes) {
    (forall i | 0 <= i < |cs| :: IsChunk(cs[i])) && IsSize(last, 0) && IsExtension(extension)
  }

  /** Removing the chunk framing in place is a round trip: after a chunked body, the body in the
      buffer is the data of the chunks, the message is complete once, and what comes before the
      body, headers included, is as it was. */
  lemma Dechunked(s: State, x: Context, cs: seq<Chunk>, last: bytes, extension: bytes) returns (y: Context)
    requires BeforeChunk(s) && Within(x, |x.buf|) && IsChunkedBody(cs, last, extension)
    ensures var v := AbsorbAll(System(s, x), ChunkedBody(cs, last, extension));
            && v.parser == MessageComplete(s.(flags := s.flags.(trailing := true)))
            && v.context == Completed(y)
    ensures if x.body.None?
            && cs == [] then y == After(x, ChunkLine(last, extension) + [CR, LF]) else Extended(x, y, AllData(cs))
  {
    hide *;
    BodyParts(s, cs, last, extension);
    var tail := ChunkLine(last, extension) + [CR, LF];
    var z := ChunksRun(s, x, cs, tail);
    ChunksWithin(x, z, cs);
    LineRun(s, z, last, extension, 0, [CR, LF]);
    LastLine(s, After(z, ChunkLine(last, extension)));
    y := After(z, tail);
    AfterTwice(z, ChunkLine(last, extension), [CR, LF]);
    if cs != [] {
      assert After(x, []) == x by { AfterNothing(x); }
      ExtendedAfter(x, [], z, AllData(cs), tail);
    } else if x.body.Some? {
      ExtendedByNothing(x, tail);
      NoData(cs);
    }
  }

  lemma NoData(cs: seq<Chunk>)
    requires cs == []
    ensures AllData(cs) == []
  {
  }

  lemma AfterNothing(x: Context)
    ensures After(x, []) == x
  {
  }

  lemma AfterTwice(x: Context, a: bytes, b: bytes)
    ensures After(After(x, a), b) == After(x, a + b)
  {
    assert x.buf + a + b == x.buf + (a + b);
  }

  lemma ChunksWithin(x: Context, y: Context, cs: seq<Chunk>)
    requires Within(x, |x.buf|) && if cs == [] then y == x else Extended(x, y, AllData(cs))
    ensures Within(y, |y.buf|)
  {
    hide Within, AllData;
    if cs != [] {
      ExtendedWithin(x, y, AllData(cs));
    }
  }

  lemma BodyParts(s: State, cs: seq<Chunk>, last: bytes, extension: bytes)
    requires BeforeChunk(s) && IsChunkedBody(cs, last, extension)
    ensures ChunkedBody(cs, last, extension) == AllChunks(cs) + (ChunkLine(last, extension) + [CR, LF])
    ensures (forall i | 0 <= i < |cs| :: IsChunk(cs[i])) && IsSize(last, 0) && IsExtension(extension)
    ensures Inv(s) && s.error == 0
  {
    hide Inv, ChunkLine, AllChunks, IsChunk, IsSize;
  }

  // ---- a chunked response, from its first byte ----

  lemma {:induction false} FedTo(s: State, x: Context, from: nat, t: bytes) returns (y: Context, f: nat)
    requires Cut(s, x, from) && Inv(Virtual(s, x, from).parser)
    requires AbsorbAll(Virtual(s, x, from), t).parser.error == 0
    ensures var w := AbsorbAll(Virtual(s, x, from), t); Cut(w.parser, y, f) && w == Virtual(w.parser, y, f)
    decreases |t|, Rank(s.node)
  {
    hide *;
    CutVirtual(s, x, from);
    if t == [] {
      y, f := x, from;
    } else {
      FeedOne(s, x, from, t);
      StepKept(s, t[0]);
      var o := Step(s, t[0]);
      y, f := FedTo(o.s, DispatchContext(s, x, from, t[0]), DispatchFrom(s, x, from, t[0]),
                    if o.eaten then t[1..] else t);
    }
  }

  /** Whatever a fresh parser has been fed, everything it has recorded lies within the bytes seen, and
      a header value is only recorded after its field. */
  lemma ParsedWithin(head: bool, t: bytes)
    requires Parsed(head, t).parser.error == 0
    ensures Within(Parsed(head, t).context, |t|)
    ensures SpanOf(Parsed(head, t).parser).None? ==> Cut(Parsed(head, t).parser, Parsed(head, t).context, |t|)
    ensures |Parsed(head, t).context.buf| == |t|
  {
    hide AbsorbAll, Cut, SpanOf, Virtual, Inv, Within;
    FreshInv(head);
    FreshVirtual(head);
    var y, f := FedTo(Init(head), NEW_CONTEXT, 0, t);
    var w := Parsed(head, t);
    VirtualWithin(w.parser, y, f);
  }

  lemma FreshVirtual(head: bool)
    ensures Virtual(Init(head), NEW_CONTEXT, 0) == Fresh(head)
  {
    hide OnPiece;
  }

  lemma VirtualWithin(s: State, x: Context, from: nat)
    requires Cut(s, x, from)
    ensures var y := Virtual(s, x, from).context; Within(y, |y.buf|) && (SpanOf(s).None? ==> Cut(s, y, |y.buf|))
  {
    hide SpanOf, Within, Inv, OnPiece;
    if SpanOf(s).Some? && from < |x.buf| {
      PieceWithin(x, SpanOf(s).value, from, |x.buf| - from) by { ValueSpan(s, SpanOf(s).value); }
    } else {
      MoreWithin(x, from, |x.buf|);
    }
  }

  // ---- how often a message is completed ----

  predicate Counted(x: Context) {
    x.parsing == HTTP_PARSING_COMPLETE ==> x.completions > 0
  }

  lemma ApplyCounts(x: Context, it: Item, p: nat)
    ensures Apply(x, it, p).completions >= x.completions && (Counted(x) ==> Counted(Apply(x, it, p)))
  {
    hide OnPiece, CompleteHeader;
    match it
    case Begin =>
    case Data(k) => PieceCounts(x, k, p, 1);
    case End(k, after) => PieceCounts(x, k, p + after, 0);
    case HeadersDone(n, flags) => CompleteCounts(x);
    case Done =>
  }

  lemma CompleteCounts(x: Context)
    ensures forall n, flags :: OnHeadersComplete(x, n, flags).completions == x.completions
    ensures forall n, flags :: OnHeadersComplete(x, n, flags).parsing == x.parsing
  {
    hide Slice;
  }

  lemma PieceCounts(x: Context, k: Kind, loc: nat, n: nat)
    ensures OnPiece(x, k, loc, n).completions == x.completions && OnPiece(x, k, loc, n).parsing == x.parsing
  {
    hide Slice, Moved;
  }

  lemma {:induction false} ApplyAllCounts(x: Context, items: seq<Item>, p: nat)
    ensures var y := ApplyAll(x, items, p); y.completions >= x.completions && (Counted(x) ==> Counted(y))
    decreases |items|
  {
    hide Apply, Counted;
    if items != [] {
      ApplyCounts(x, items[0], p);
      ApplyAllCounts(Apply(x, items[0], p), items[1..], p);
    }
  }

  lemma {:induction false} AbsorbCounts(v: System, c: byte)
    requires Inv(v.parser)
    ensures var w := Absorb(v, c).context; w.completions >= v.context.completions && (Counted(v.context) ==> Counted(w))
    decreases Rank(v.parser.node)
  {
    hide Apply, ApplyAll, Step, Inv;
    if v.parser.error == 0 {
      StepKeeps(v.parser, c);
      var o, p := Step(v.parser, c), |v.context.buf|;
      if o.eaten || o.s.error != 0 {
        ApplyAllCounts(Grow(v.context, c), o.items, p);
      } else {
        ApplyAllCounts(v.context, o.items, p);
        AbsorbCounts(System(o.s, ApplyAll(v.context, o.items, p)), c);
      }
    }
  }

  /** Completions are only ever added, and a complete message has been counted. */
  lemma {:induction false} AllCounts(v: System, t: bytes)
    requires Inv(v.parser)
    ensures var w := AbsorbAll(v, t).context;
            w.completions >= v.context.completions && (Counted(v.context) ==> Counted(w))
    decreases |t|
  {
    hide Absorb, Inv, Counted;
    if t != [] {
      AbsorbCounts(v, t[0]);
      AllCounts(Absorb(v, t[0]), t[1..]);
    }
  }

  /** Before the first completion no prefix is a complete message. */
  lemma NotYet(head: bool, t: bytes, n: nat)
    requires n <= |t| && Parsed(head, t).context.completions == 0
    ensures Parsed(head, t[..n]).context.parsing != HTTP_PARSING_COMPLETE
  {
    hide AbsorbAll, Inv, Parsed;
    assert t[..n] + t[n..] == t;
    ParsedMore(head, t[..n], t[n..]);
    AllCounts(Parsed(head, t[..n]), t[n..]);
    PrefixCounted(head, t[..n]);
  }

  lemma PrefixCounted(head: bool, t: bytes)
    ensures Counted(Parsed(head, t).context)
  {
    hide AbsorbAll, Inv;
    FreshInv(head);
    AllCounts(Fresh(head), t);
  }

  /** The head h has been read, its blank line included, and a chunk must follow. */
  ghost predicate AnnouncesChunks(h: bytes) {
    var v := Parsed(false, h);
    BeforeChunk(v.parser) && v.context.completions == 0 && v.context.body.None?
  }

  lemma ChunksBegin(h: bytes)
    requires AnnouncesChunks(h)
    ensures var v := Parsed(false, h);
            && BeforeChunk(v.parser)
            && Within(v.context, |v.context.buf|) && v.context.body.None? && v.context.completions == 0
  {
    hide Parsed, Within, Sequence;
    ParsedWithin(false, h);
  }

  lemma BeforeChunkInv(s: State)
    requires BeforeChunk(s)
    ensures Inv(s) && s.error == 0
  {
  }

  lemma EndsWith(s: State)
    requires s.error == 0
    ensures MessageComplete(s.(flags := s.flags.(trailing := true))).error ==
            if s.upgrade then HPE_PAUSED_UPGRADE else 0
  {
  }

  lemma ExtendedFromNothing(x: Context, y: Context, cs: seq<Chunk>, last: bytes, extension: bytes)
    requires x.body.None? && x.completions == 0
    requires if cs == [] then y == After(x, ChunkLine(last, extension) + [CR, LF]) else Extended(x, y, AllData(cs))
    ensures BodyText(Completed(y)) == AllData(cs) && (cs != [] ==> Completed(y).bodyLen == |AllData(cs)|)
    ensures Completed(y).completions == 1 && Completed(y).parsing == HTTP_PARSING_COMPLETE
    ensures var z := Completed(y);
            z == x.(body := z.body, bodyLen := z.bodyLen, buf := z.buf, parsing := z.parsing,
                    completions := z.completions)
  {
    hide ChunkLine, Within, Slice;
  }

  /** The bytes t are complete with their last, and not before. */
  ghost predicate CompleteAtEnd(head: bool, t: bytes) {
    && Parsed(head, t).context.parsing == HTTP_PARSING_COMPLETE
    && (forall n | 0 <= n < |t| :: Parsed(head, t[..n]).context.parsing != HTTP_PARSING_COMPLETE)
  }

  lemma ResponseIs(head: bool, t: bytes, y: Context)
    requires Parsed(head, t).context == Completed(y)
    requires forall n | 0 <= n < |t| :: Parsed(head, t[..n]).context.parsing != HTTP_PARSING_COMPLETE
    ensures CompleteAtEnd(head, t)
  {
    hide Parsed;
  }

  /** Up to the line feed of the last blank line nothing is complete. */
  lemma AllButLast(s: State, x: Context, cs: seq<Chunk>, last: bytes, extension: bytes)
    requires BeforeChunk(s) && Within(x, |x.buf|) && IsChunkedBody(cs, last, extension)
    ensures Inv(s)
            && AbsorbAll(System(s, x),
                         AllChunks(cs) + (ChunkLine(last, extension) + [CR])).context.completions == x.completions
  {
    hide *;
    BodyParts(s, cs, last, extension);
    var y := ChunksRun(s, x, cs, ChunkLine(last, extension) + [CR]);
    LineRun(s, y, last, extension, 0, [CR]);
    ChunksCompletions(x, y, cs);
    BreakQuiet(s, After(y, ChunkLine(last, extension)));
    AfterCompletions(y, ChunkLine(last, extension));
  }

  lemma ChunksCompletions(x: Context, y: Context, cs: seq<Chunk>)
    requires if cs == [] then y == x else Extended(x, y, AllData(cs))
    ensures y.completions == x.completions
  {
    hide AllData, Within, BodyText, BeforeBody;
  }

  lemma AfterCompletions(x: Context, t: bytes)
    ensures After(x, t).completions == x.completions
  {
  }

  lemma BreakQuiet(s: State, x: Context)
    requires BeforeChunk(s) && Inv(LineDone(s, 0))
    ensures AbsorbAll(System(LineDone(s, 0), x), [CR]).context.completions == x.completions
  {
    hide AbsorbAll, Rank, Sequence;
    var u := LineDone(s, 0);
    var m := u.(node := InBody(HeadersAlmostDone));
    QuietFirst(u, m, x, [CR]);
    NothingMore(System(m, After(x, [CR])));
    assert [CR][1..] == [];
  }

  lemma OnlyAtTheEnd(h: bytes, cs: seq<Chunk>, last: bytes, extension: bytes, n: nat)
    requires AnnouncesChunks(h) && IsChunkedBody(cs, last, extension)
    requires n < |h + ChunkedBody(cs, last, extension)|
    ensures Parsed(false, (h + ChunkedBody(cs, last, extension))[..n]).context.parsing != HTTP_PARSING_COMPLETE
  {
    hide *;
    ChunksBegin(h);
    var v, w := Parsed(false, h), AllChunks(cs) + (ChunkLine(last, extension) + [CR]);
    BeforeChunkInv(v.parser);
    AllButLast(v.parser, v.context, cs, last, extension);
    ParsedMore(false, h, w);
    LastByteOf(cs, last, extension, h);
    var t, u := h + ChunkedBody(cs, last, extension), h + w;
    assert t == u + [LF];
    assert t[..n] == u[..n];
    NotYet(false, u, n);
  }

  lemma LastByteOf(cs: seq<Chunk>, last: bytes, extension: bytes, h: bytes)
    ensures var w := AllChunks(cs) + (ChunkLine(last, extension) + [CR]);
            h + ChunkedBody(cs, last, extension) == h + w + [LF]
  {
    hide ChunkLine, AllChunks;
    assert [CR, LF] == [CR] + [LF];
  }

  /** From the first byte of a chunked response: it is complete with its last byte and not before, however it is
      cut; its body is the data of its chunks, and it ends in an error only if it switches protocols. */
  lemma ChunkedResponse(h: bytes, cs: seq<Chunk>, last: bytes, extension: bytes)
    requires AnnouncesChunks(h) && IsChunkedBody(cs, last, extension)
    ensures var t := h + ChunkedBody(cs, last, extension); var x := Parsed(false, t).context;
            && CompleteAtEnd(false, t)
            && Parsed(false, t).parser.error == (if Parsed(false, h).parser.upgrade then HPE_PAUSED_UPGRADE else 0)
            && BodyText(x) == AllData(cs) && (cs != [] ==> x.bodyLen == |AllData(cs)|) && x.completions == 1
            && x.parsing == HTTP_PARSING_COMPLETE
            && x == Parsed(false, h).context.(body := x.body, bodyLen := x.bodyLen, buf := x.buf,
                                                     parsing := x.parsing, completions := x.completions)
  {
    hide *;
    ChunksBegin(h);
    var v, body := Parsed(false, h), ChunkedBody(cs, last, extension);
    var t := h + body;
    ParsedMore(false, h, body);
    BeforeChunkInv(v.parser);
    var y := Dechunked(v.parser, v.context, cs, last, extension);
    EndsWith(v.parser);
    ExtendedFromNothing(v.context, y, cs, last, extension);
    forall n | 0 <= n < |t| ensures Parsed(false, t[..n]).context.parsing != HTTP_PARSING_COMPLETE {
      OnlyAtTheEnd(h, cs, last, extension, n);
    }
    ResponseIs(false, t, y);
  }
}
