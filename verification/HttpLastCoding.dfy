/** What the automaton takes for a list that ends in chunked, said apart from how it reads the list, and when
    that is the last coding of the list. */
module HttpLastCoding {
  import opened Bytes
  import opened Llhttp
  import opened HttpHeadName
  import opened HttpHeadToken
  import opened HttpHeadCoding

  // ---- the last element of a list ----

  /** What follows the last comma. */
  function LastPart(v: bytes): (p: bytes)
    ensures |p| <= |v| && COMMA !in p
  {
    if v == [] || v[|v| - 1] == COMMA then [] else LastPart(v[..|v| - 1]) + [v[|v| - 1]]
  }

  /** Without the white space in front. */
  function Unblanked(t: bytes): (r: bytes)
    ensures |r| <= |t| && (r != [] ==> !IsBlank(r[0])) && (COMMA !in t ==> COMMA !in r)
  {
    if t != [] && IsBlank(t[0]) then Unblanked(t[1..]) else t
  }

  /** Without the white space behind. */
  function Shortened(t: bytes): (r: bytes)
    ensures r <= t
  {
    if t != [] && IsBlank(t[|t| - 1]) then Shortened(t[..|t| - 1]) else t
  }

  function Stripped(t: bytes): bytes {
    Shortened(Unblanked(t))
  }

  /** Without the spaces in front. */
  function Unspaced(t: bytes): (r: bytes)
    ensures |r| <= |t| && (r != [] ==> r[0] != SP) && (COMMA !in t ==> COMMA !in r)
  {
    if t != [] && t[0] == SP then Unspaced(t[1..]) else t
  }

  predicate StartsWord(t: bytes) {
    |t| >= WHOLE && Lowered(t[..WHOLE]) == CHUNKED
  }

  /** The word in any case, once or more often, each time with any number of spaces behind it. */
  predicate Words(t: bytes)
    decreases |t|
  {
    StartsWord(t) && (Unspaced(t[WHOLE..]) == [] || Words(Unspaced(t[WHOLE..])))
  }

  lemma {:induction false} LastPartOf(v: bytes)
    ensures var p := LastPart(v); |p| < |v| ==> v == v[..|v| - |p| - 1] + [COMMA] + p
    ensures |LastPart(v)| == |v| ==> LastPart(v) == v
    decreases |v|
  {
    if v != [] && v[|v| - 1] != COMMA {
      var w := v[..|v| - 1];
      LastPartOf(w);
      assert v == w + [v[|v| - 1]];
    }
  }

  // ---- what is read as chunked ----

  lemma {:induction false} OtherStays(t: bytes)
    requires COMMA !in t
    ensures Coding(OTHER, t) == OTHER
    decreases |t|
  {
    if t != [] {
      OtherStays(t[1..]);
    }
  }

  lemma {:induction false} BlanksSkipped(t: bytes)
    ensures Coding(0, t) == Coding(0, Unblanked(t))
    decreases |t|
  {
    if t != [] && IsBlank(t[0]) {
      BlanksSkipped(t[1..]);
    }
  }

  lemma {:induction false} SpacesSkipped(t: bytes)
    ensures Coding(WHOLE, t) == Coding(WHOLE, Unspaced(t))
    decreases |t|
  {
    if t != [] && t[0] == SP {
      SpacesSkipped(t[1..]);
    }
  }

  /** The rest of the word, of which p bytes have been read. */
  predicate RestOfWord(p: nat, t: bytes)
    requires p <= WHOLE
  {
    |t| >= WHOLE - p && Lowered(t[..WHOLE - p]) == CHUNKED[p..]
  }

  lemma RestStep(p: nat, t: bytes)
    requires p < WHOLE && t != []
    ensures RestOfWord(p, t) <==> ToLower(t[0]) == CHUNKED[p] && RestOfWord(p + 1, t[1..])
  {
    hide ToLower;
    if |t| >= WHOLE - p {
      var a, b := t[..WHOLE - p], t[1..][..WHOLE - p - 1];
      assert a[1..] == b && Lowered(a) == [ToLower(a[0])] + Lowered(b);
      assert CHUNKED[p..] == [CHUNKED[p]] + CHUNKED[p + 1..];
    }
  }

  lemma {:induction false} WordPart(p: nat, t: bytes)
    requires p <= WHOLE && COMMA !in t && (p == 0 ==> t == [] || !IsBlank(t[0]))
    ensures Coding(p, t) == WHOLE <==> RestOfWord(p, t) && Coding(WHOLE, t[WHOLE - p..]) == WHOLE
    decreases |t|
  {
    if p == WHOLE {
      assert t[..0] == [] && CHUNKED[WHOLE..] == [] && t[0..] == t;
    } else if t != [] {
      RestStep(p, t);
      ProgressIs(p, t[0]);
      hide Progress, ToLower, RestOfWord, IsBlank;
      if ToLower(t[0]) == CHUNKED[p] {
        WordPart(p + 1, t[1..]);
        RestLength(p, t);
      } else {
        OtherStays(t[1..]);
      }
    }
  }

  lemma RestLength(p: nat, t: bytes)
    requires p < WHOLE && t != []
    ensures RestOfWord(p + 1, t[1..]) ==> |t| >= WHOLE - p && t[1..][WHOLE - p - 1..] == t[WHOLE - p..]
  {
    hide Lowered;
  }

  lemma {:induction false} WordsRead(t: bytes)
    requires COMMA !in t && (t != [] ==> !IsBlank(t[0]))
    ensures Coding(0, t) == WHOLE <==> Words(t)
    decreases |t|
  {
    WordPart(0, t);
    StartIs(t);
    if StartsWord(t) {
      var u := t[WHOLE..];
      SpacesSkipped(u);
      AgainRead(Unspaced(u));
      hide Coding, StartsWord;
      if Unspaced(u) != [] && !IsBlank(Unspaced(u)[0]) {
        WordsRead(Unspaced(u));
      }
    }
  }

  lemma StartIs(t: bytes)
    ensures StartsWord(t) <==> RestOfWord(0, t)
  {
    assert CHUNKED[0..] == CHUNKED;
    hide Lowered;
  }

  /** After the word another one may begin, but not behind a tab. */
  lemma AgainRead(u: bytes)
    requires COMMA !in u && (u != [] ==> u[0] != SP)
    ensures u == [] ==> Coding(WHOLE, u) == WHOLE
    ensures u != [] && !IsBlank(u[0]) ==> Coding(WHOLE, u) == Coding(0, u)
    ensures u != [] && IsBlank(u[0]) ==> Coding(WHOLE, u) != WHOLE && !Words(u)
  {
    if u != [] {
      ProgressIs(0, u[0]);
      ProgressIs(WHOLE, u[0]);
      hide Progress;
      if IsBlank(u[0]) {
        TabIsNoWord(u);
        OtherStays(u[1..]);
      }
    }
  }

  lemma TabIsNoWord(u: bytes)
    requires u != [] && IsBlank(u[0])
    ensures !StartsWord(u) && ToLower(u[0]) != CHUNKED[0]
  {
    if |u| >= WHOLE {
      assert Lowered(u[..WHOLE])[0] == ToLower(u[..WHOLE][0]) == ToLower(u[0]);
    }
  }

  /** A list announces chunks if and only if what follows its last comma is, after white space, the word once or
      more often, each time with any number of spaces behind it. */
  lemma ChunkedExact(v: bytes)
    ensures IsChunked(v) <==> Words(Unblanked(LastPart(v)))
  {
    var p := LastPart(v);
    LastPartOf(v);
    if |p| < |v| {
      LastDecides(v[..|v| - |p| - 1], p);
    }
    BlanksSkipped(p);
    WordsRead(Unblanked(p));
    hide Coding, Words, LastPart, Unblanked;
  }

  // ---- when that is the last coding ----

  /** The last coding of a list in lower case, without white space around it; empty elements are no codings
      (section 7 of RFC 7230). */
  function LastCoding(v: bytes): bytes
    decreases |v|
  {
    var p := LastPart(v);
    if Stripped(p) != [] || |p| == |v| then Lowered(Stripped(p)) else LastCoding(v[..|v| - |p| - 1])
  }

  predicate IsBlanks(t: bytes) {
    forall c | c in t :: IsBlank(c)
  }

  /** A tab in the white space behind the word. */
  predicate TabBehind(v: bytes) {
    var t := Unblanked(LastPart(v));
    StartsWord(t) && IsBlanks(t[WHOLE..]) && TAB in t[WHOLE..]
  }

  /** The word is followed by itself. */
  predicate WordAgain(v: bytes) {
    var t := Unblanked(LastPart(v));
    StartsWord(t) && Words(Unspaced(t[WHOLE..]))
  }

  /** Empty elements behind the word. */
  predicate EmptyBehind(v: bytes) {
    Stripped(LastPart(v)) == [] && LastCoding(v) == CHUNKED
  }

  lemma {:induction false} UnspacedEmpty(t: bytes)
    ensures Unspaced(t) == [] <==> forall c | c in t :: c == SP
    decreases |t|
  {
    if t != [] {
      if t[0] == SP {
        UnspacedEmpty(t[1..]);
        assert forall c | c in t :: c == t[0] || c in t[1..];
        assert forall c | c in t[1..] :: c in t;
      } else {
        assert t[0] in t;
      }
    }
  }

  lemma {:induction false} ShortenedEnd(t: bytes, n: nat)
    requires n <= |t| && (n > 0 ==> !IsBlank(t[n - 1]))
    ensures Shortened(t) == t[..n] <==> IsBlanks(t[n..])
    ensures |Shortened(t)| >= n
    decreases |t|
  {
    if n == |t| {
      assert t[..n] == t;
    } else if IsBlank(t[|t| - 1]) {
      var u := t[..|t| - 1];
      ShortenedEnd(u, n);
      assert u[..n] == t[..n] && t[n..] == u[n..] + [t[|t| - 1]];
    } else {
      assert t[|t| - 1] in t[n..];
    }
  }

  lemma WordNotBlank(t: bytes)
    requires StartsWord(t)
    ensures !IsBlank(t[WHOLE - 1])
  {
    var w := t[..WHOLE];
    LowerAt(w, WHOLE - 1);
    LowerBlank(t[WHOLE - 1]);
    assert CHUNKED[WHOLE - 1] == 100;
  }

  lemma {:induction false} LowerAt(t: bytes, i: nat)
    requires i < |t|
    ensures |Lowered(t)| == |t| && Lowered(t)[i] == ToLower(t[i])
    decreases |t|
  {
    hide ToLower;
    if |t| > 1 {
      LowerAt(t[1..], if i == 0 then 0 else i - 1);
    }
  }

  /** A coding that starts with the word is the word if and only if nothing but white space follows. */
  lemma WordAlone(t: bytes)
    requires StartsWord(t)
    ensures Lowered(Shortened(t)) == CHUNKED <==> IsBlanks(t[WHOLE..])
    ensures Shortened(t) != []
  {
    WordNotBlank(t);
    ShortenedEnd(t, WHOLE);
    assert |CHUNKED| == WHOLE;
    hide Lowered, IsBlanks;
    var r := Shortened(t);
    assert |r| == WHOLE ==> r == t[..WHOLE];
  }

  lemma NotTheWord(t: bytes)
    requires !StartsWord(t)
    ensures Lowered(Shortened(t)) != CHUNKED
  {
    var r := Shortened(t);
    assert |CHUNKED| == WHOLE;
    hide Lowered;
    if |r| == WHOLE {
      assert r == t[..WHOLE];
    }
  }

  /** Chunks are announced as the last coding asks if and only if the word has no tab, no word and no empty
      element behind it. */
  lemma CodingAgrees(v: bytes)
    ensures (IsChunked(v) <==> LastCoding(v) == CHUNKED) <==> !TabBehind(v) && !WordAgain(v) && !EmptyBehind(v)
  {
    ChunkedExact(v);
    var t := Unblanked(LastPart(v));
    hide IsChunked, LastPart, Unblanked, Shortened, Lowered;
    if StartsWord(t) {
      WordAlone(t);
      var u := t[WHOLE..];
      UnspacedEmpty(u);
      BlanksOrSpaces(u);
      hide StartsWord;
    } else {
      NotTheWord(t);
      hide StartsWord;
    }
  }

  lemma BlanksOrSpaces(u: bytes)
    ensures IsBlanks(u) && TAB !in u <==> (forall c | c in u :: c == SP)
    ensures IsBlanks(u) && Unspaced(u) != [] ==> !Words(Unspaced(u))
  {
    UnspacedIn(u);
    var w := Unspaced(u);
    if IsBlanks(u) && w != [] {
      assert w[0] in u;
      TabIsNoWord(w);
    }
  }

  lemma {:induction false} UnspacedIn(u: bytes)
    ensures forall c | c in Unspaced(u) :: c in u
    decreases |u|
  {
    if u != [] && u[0] == SP {
      UnspacedIn(u[1..]);
    }
  }

  /** The word twice is no coding called chunked, but announces chunks. */
  lemma ChunkedTwice()
    ensures IsChunked(CHUNKED + CHUNKED) && LastCoding(CHUNKED + CHUNKED) != CHUNKED
  {
    var v := CHUNKED + CHUNKED;
    WordsStay();
    assert v[WHOLE..] == CHUNKED && v[..WHOLE] == CHUNKED;
    NoComma(v);
    ChunkedExact(v);
    CodingAgrees(v);
  }

  /** The word with a tab behind it is the coding chunked, but does not announce chunks. */
  lemma ChunkedTab()
    ensures !IsChunked(CHUNKED + [TAB]) && LastCoding(CHUNKED + [TAB]) == CHUNKED
  {
    var v := CHUNKED + [TAB];
    WordsStay();
    assert v[WHOLE..] == [TAB] && v[..WHOLE] == CHUNKED;
    NoComma(v);
    ChunkedExact(v);
    CodingAgrees(v);
  }

  lemma WordsStay()
    ensures Lowered(CHUNKED) == CHUNKED && |CHUNKED| == WHOLE && StartsWord(CHUNKED) && Words(CHUNKED)
  {
    assert CHUNKED[..WHOLE] == CHUNKED && CHUNKED[WHOLE..] == [];
    forall i | 0 <= i < WHOLE ensures Lowered(CHUNKED)[i] == CHUNKED[i] {
      LowerAt(CHUNKED, i);
      ChunkedLetter(i);
    }
    assert Lowered(CHUNKED) == CHUNKED;
  }

  lemma {:induction false} NoComma(v: bytes)
    requires COMMA !in v
    ensures LastPart(v) == v
  {
    if v != [] {
      NoComma(v[..|v| - 1]);
      assert v[|v| - 1] in v;
    }
  }
}
