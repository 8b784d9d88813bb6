/** The search and iteration routines of source/core_json.cpp. */
module JsonSearch {
  import opened Bytes
  import opened JsonScan

  datatype ValueType =
    | JSONString | JSONNumber | JSONTrue | JSONFalse | JSONNull | JSONObject | JSONArray

  // ---- values and members ----

  /** The index after the scalar or collection at i. */
  function ValueEnd(b: bytes, i: nat): (r: Option<nat>)
    ensures r.Some? ==> i < r.value <= |b|
  {
    if ScalarEnd(b, i).Some? then ScalarEnd(b, i)
    else if Brackets(b, i, []).0 == JSONSuccess then Some(Brackets(b, i, []).1)
    else None
  }

  method NextValue(buf: bytes, start: nat) returns (ret: bool, end: nat, value: nat, valueLength: nat)
    ensures ret <==> ValueEnd(buf, start).Some?
    ensures end == (if ret then ValueEnd(buf, start).value else start)
    ensures ret ==> value == start && valueLength == end - start
  {
    ret, end, value, valueLength := true, start, 0, 0;
    var ok, i := SkipAnyScalar(buf, start);
    if ok {
      value, valueLength := start, i - start;
    } else {
      var status;
      status, i := SkipCollection(buf, i);
      if status == JSONSuccess {
        value, valueLength := start, i - start;
      } else {
        ret := false;
      }
    }
    if ret {
      end := i;
    }
  }

  datatype Found = Found(key: nat, keyLength: nat, value: nat, end: nat)

  /** The member at i: its key without the quotes, and its value. */
  function MemberAt(b: bytes, i: nat): (r: Option<Found>)
    ensures r.Some? ==> i < r.value.key && r.value.key + r.value.keyLength <= r.value.value < r.value.end <= |b|
  {
    match StringEnd(b, i)
    case None => None
    case Some(j) =>
      var s := SpaceEnd(b, j);
      if s < |b| && b[s] == COLON then
        var v := SpaceEnd(b, s + 1);
        match ValueEnd(b, v)
        case None => None
        case Some(e) => Some(Found(i + 1, j - i - 2, v, e))
      else None
  }

  method NextKeyValuePair(buf: bytes, start: nat)
    returns (ret: bool, end: nat, key: nat, keyLength: nat, value: nat, valueLength: nat)
    ensures ret <==> MemberAt(buf, start).Some?
    ensures end == (if ret then MemberAt(buf, start).value.end else start)
    ensures ret ==> MemberAt(buf, start) == Some(Found(key, keyLength, value, value + valueLength))
  {
    hide StringEnd, SpaceEnd, ValueEnd;
    ret, end, key, keyLength, value, valueLength := true, start, 0, 0, 0, 0;
    var ok, i := SkipString(buf, start);
    if ok {
      key, keyLength := start + 1, i - start - 2;
    } else {
      ret := false;
    }
    if ret {
      i := SkipSpace(buf, i);
      if i < |buf| && buf[i] == COLON {
        i := i + 1;
        i := SkipSpace(buf, i);
      } else {
        ret := false;
      }
    }
    if ret {
      ret, i, value, valueLength := NextValue(buf, i);
    }
    if ret {
      end := i;
    }
  }

  // ---- searching one level ----

  datatype Slice = Slice(offset: nat, length: nat)

  /** Offset and length of the value of the first member from i whose raw key is query. */
  function ObjectSearchFrom(b: bytes, i: nat, query: bytes): (r: Option<Slice>)
    ensures r.Some? ==> r.value.offset + r.value.length <= |b| && r.value.length > 0
    decreases |b| - i
  {
    match MemberAt(b, i)
    case None => None
    case Some(m) =>
      if b[m.key..m.key + m.keyLength] == query then Some(Slice(m.value, m.end - m.value))
      else
        var (comma, k) := CommaEnd(b, m.end);
        if comma then ObjectSearchFrom(b, k, query) else None
  }

  function ObjectSearchEnd(b: bytes, query: bytes): (r: Option<Slice>)
    ensures r.Some? ==> r.value.offset + r.value.length <= |b| && r.value.length > 0
  {
    var s := SpaceEnd(b, 0);
    if s < |b| && b[s] == LBRACE then ObjectSearchFrom(b, SpaceEnd(b, s + 1), query) else None
  }

  predicate KeyIs(b: bytes, m: Found, query: bytes)
    requires m.key + m.keyLength <= |b|
  {
    b[m.key..m.key + m.keyLength] == query
  }

  lemma ObjectSearchStep(b: bytes, i: nat, query: bytes)
    ensures MemberAt(b, i).None? ==> ObjectSearchFrom(b, i, query) == None
    ensures MemberAt(b, i).Some? ==>
              ObjectSearchFrom(b, i, query) ==
              var m := MemberAt(b, i).value;
              if KeyIs(b, m, query) then Some(Slice(m.value, m.end - m.value))
              else if CommaEnd(b, m.end).0 then ObjectSearchFrom(b, CommaEnd(b, m.end).1, query) else None
    ensures i >= |b| ==> ObjectSearchFrom(b, i, query) == None
  {
    hide CommaEnd;
  }

  lemma ObjectSearchStart(b: bytes, query: bytes)
    ensures var s := SpaceEnd(b, 0);
            ObjectSearchEnd(b, query) ==
            if s < |b| && b[s] == LBRACE then ObjectSearchFrom(b, SpaceEnd(b, s + 1), query) else None
  {
    hide ObjectSearchFrom;
  }

  /** Equal lengths first, then the bytes of the key in the buffer. */
  method KeyEquals(buf: bytes, key: nat, keyLength: nat, query: bytes) returns (same: bool)
    requires key + keyLength <= |buf|
    ensures same <==> KeyIs(buf, Found(key, keyLength, 0, 0), query)
  {
    same := false;
    if |query| == keyLength {
      same := StrnEq(buf, key, query, keyLength);
      assert query[..keyLength] == query;
    }
  }

  method ObjectSearch(buf: bytes, query: bytes) returns (ret: bool, outValue: nat, outValueLength: nat)
    ensures ret <==> ObjectSearchEnd(buf, query).Some?
    ensures ret ==> ObjectSearchEnd(buf, query) == Some(Slice(outValue, outValueLength))
  {
    hide MemberAt, SpaceEnd, CommaEnd, ObjectSearchEnd, ObjectSearchFrom, IsSpace, IsClose;
    ret, outValue, outValueLength := false, 0, 0;
    ObjectSearchStart(buf, query);
    var i := SkipSpace(buf, 0);
    if i < |buf| && buf[i] == LBRACE {
      i := i + 1;
      i := SkipSpace(buf, i);
      while i < |buf|
        invariant ObjectSearchFrom(buf, i, query) == ObjectSearchEnd(buf, query)
        invariant !ret
        decreases |buf| - i
      {
        ObjectSearchStep(buf, i, query);
        var ok, key, keyLength, value, valueLength;
        ok, i, key, keyLength, value, valueLength := NextKeyValuePair(buf, i);
        if !ok { break; }
        var same := KeyEquals(buf, key, keyLength, query);
        if same {
          ret, outValue, outValueLength := true, value, valueLength;
          break;
        }
        ok, i := SkipSpaceAndComma(buf, i);
        if !ok { break; }
      }
      if i >= |buf| { ObjectSearchStep(buf, i, query); }
    }
  }

  /** The value numbered index, when the one at i is numbered current. */
  function ArraySearchFrom(b: bytes, i: nat, current: nat, index: nat): (r: Option<Slice>)
    ensures r.Some? ==> r.value.offset + r.value.length <= |b| && r.value.length > 0
    decreases |b| - i
  {
    match ValueEnd(b, i)
    case None => None
    case Some(e) =>
      if current == index then Some(Slice(i, e - i))
      else
        var (comma, k) := CommaEnd(b, e);
        if comma then ArraySearchFrom(b, k, current + 1, index) else None
  }

  function ArraySearchEnd(b: bytes, index: nat): (r: Option<Slice>)
    ensures r.Some? ==> r.value.offset + r.value.length <= |b| && r.value.length > 0
  {
    var s := SpaceEnd(b, 0);
    if s < |b| && b[s] == LSQUARE then ArraySearchFrom(b, SpaceEnd(b, s + 1), 0, index) else None
  }

  lemma ArraySearchStep(b: bytes, i: nat, current: nat, index: nat)
    ensures ValueEnd(b, i).None? ==> ArraySearchFrom(b, i, current, index) == None
    ensures ValueEnd(b, i).Some? ==>
              ArraySearchFrom(b, i, current, index) ==
              var e := ValueEnd(b, i).value;
              if current == index then Some(Slice(i, e - i))
              else if CommaEnd(b, e).0 then ArraySearchFrom(b, CommaEnd(b, e).1, current + 1, index) else None
    ensures i >= |b| ==> ArraySearchFrom(b, i, current, index) == None
  {
    hide CommaEnd;
  }

  lemma ArraySearchStart(b: bytes, index: nat)
    ensures var s := SpaceEnd(b, 0);
            ArraySearchEnd(b, index) ==
            if s < |b| && b[s] == LSQUARE then ArraySearchFrom(b, SpaceEnd(b, s + 1), 0, index) else None
  {
    hide ArraySearchFrom;
  }

  method ArraySearch(buf: bytes, queryIndex: nat) returns (ret: bool, outValue: nat, outValueLength: nat)
    ensures ret <==> ArraySearchEnd(buf, queryIndex).Some?
    ensures ret ==> ArraySearchEnd(buf, queryIndex) == Some(Slice(outValue, outValueLength))
  {
    hide ValueEnd, SpaceEnd, CommaEnd, ArraySearchEnd, ArraySearchFrom, IsSpace, IsClose;
    ret, outValue, outValueLength := false, 0, 0;
    ArraySearchStart(buf, queryIndex);
    var i := SkipSpace(buf, 0);
    if i < |buf| && buf[i] == LSQUARE {
      i := i + 1;
      i := SkipSpace(buf, i);
      var currentIndex: nat := 0;
      while i < |buf|
        invariant ArraySearchFrom(buf, i, currentIndex, queryIndex) == ArraySearchEnd(buf, queryIndex)
        invariant !ret
        decreases |buf| - i
      {
        ArraySearchStep(buf, i, currentIndex, queryIndex);
        var ok, value, valueLength;
        ok, i, value, valueLength := NextValue(buf, i);
        if !ok { break; }
        if currentIndex == queryIndex {
          ret, outValue, outValueLength := true, value, valueLength;
          break;
        }
        ok, i := SkipSpaceAndComma(buf, i);
        if !ok { break; }
        currentIndex := currentIndex + 1;
      }
      if i >= |buf| { ArraySearchStep(buf, i, currentIndex, queryIndex); }
    }
  }

  // ---- queries ----

  function QueryPartEnd(q: bytes, i: nat): (k: nat)
    ensures i <= k && (i <= |q| ==> k <= |q|)
    decreases |q| - i
  {
    if i < |q| && q[i] != DOT && q[i] != LSQUARE then QueryPartEnd(q, i + 1) else i
  }

  method SkipQueryPart(buf: bytes, start: nat) returns (ret: bool, end: nat)
    ensures end == QueryPartEnd(buf, start)
    ensures ret <==> end > start
  {
    end := start;
    while end < |buf| && buf[end] != DOT && buf[end] != LSQUARE
      invariant start <= end
      invariant QueryPartEnd(buf, end) == QueryPartEnd(buf, start)
    {
      end := end + 1;
    }
    ret := end > start;
  }

  datatype Part = BadPart | IndexPart(index: nat, end: nat) | KeyPart(end: nat)

  /** The part of the query at i: an index in square brackets, or a key. */
  function PartAt(q: bytes, i: nat): (p: Part)
    requires i < |q|
    ensures !p.BadPart? ==> i < p.end <= |q|
  {
    if q[i] == LSQUARE then
      var j := DigitsEnd(q, i + 1);
      var n := if j > i + 1 then DigitsValue(q, i + 1, 0) else -1;
      if n < 0 || j >= |q| || q[j] != RSQUARE then BadPart else IndexPart(n, j + 1)
    else
      var k := QueryPartEnd(q, i);
      if k == i || k == |q| - 1 then BadPart else KeyPart(k)
  }

  function SkipSeparator(q: bytes, i: nat): (k: nat)
    ensures i <= k <= i + 1 && (i <= |q| ==> k <= |q|)
  {
    if i < |q| && q[i] == DOT then i + 1 else i
  }

  /** The rest of the query from i, applied to the window of b of the given offset and length. */
  function MultiSearchFrom(b: bytes, q: bytes, i: nat, start: nat, length: nat): (r: (Status, nat, nat))
    requires i <= |q| && start + length <= |b|
    ensures r.0 == JSONSuccess ==> r.1 + r.2 <= |b| && (length > 0 ==> r.2 > 0)
    decreases |q| - i, 0
  {
    if i == |q| then (JSONSuccess, start, length)
    else
      match PartAt(q, i)
      case BadPart => (JSONBadParameter, 0, 0)
      case IndexPart(n, end) => Descend(b, q, end, start, length, ArraySearchEnd(b[start..start + length], n))
      case KeyPart(end) => Descend(b, q, end, start, length, ObjectSearchEnd(b[start..start + length], q[i..end]))
  }

  function Descend(b: bytes, q: bytes, i: nat, start: nat, length: nat, found: Option<Slice>): (r: (Status, nat, nat))
    requires 0 < i <= |q| && start + length <= |b|
    requires found.Some? ==> found.value.offset + found.value.length <= length && found.value.length > 0
    ensures r.0 == JSONSuccess ==> r.1 + r.2 <= |b| && (length > 0 ==> r.2 > 0)
    decreases |q| - i, 1
  {
    match found
    case None => (JSONNotFound, 0, 0)
    case Some(v) => MultiSearchFrom(b, q, SkipSeparator(q, i), start + v.offset, v.length)
  }

  method MultiSearch(buf: bytes, query: bytes) returns (ret: Status, outValue: nat, outValueLength: nat)
    requires |buf| > 0 && |query| > 0
    ensures ret == MultiSearchFrom(buf, query, 0, 0, |buf|).0
    ensures ret == JSONSuccess ==> (ret, outValue, outValueLength) == MultiSearchFrom(buf, query, 0, 0, |buf|)
  {
    hide DigitsEnd, DigitsValue, QueryPartEnd, ArraySearchEnd, ObjectSearchEnd;
    ret, outValue, outValueLength := JSONSuccess, 0, 0;
    var i: nat, start: nat, length: nat := 0, 0, |buf|;
    while i < |query|
      invariant 0 <= i <= |query| && start + length <= |buf| && ret == JSONSuccess
      invariant MultiSearchFrom(buf, query, i, start, length) == MultiSearchFrom(buf, query, 0, 0, |buf|)
      decreases |query| - i
    {
      var found, value: nat, n: nat := false, 0, 0;
      var window := buf[start..start + length];
      if query[i] == LSQUARE {
        var queryIndex := -1;
        ghost var at := i;
        i := i + 1;
        var ok, j, number := SkipDigits(query, i);
        if ok {
          i, queryIndex := j, number;
        }
        assert i == DigitsEnd(query, at + 1);
        if queryIndex < 0 || i >= |query| || query[i] != RSQUARE {
          ret := JSONBadParameter;
          break;
        }
        i := i + 1;
        found, value, n := ArraySearch(window, queryIndex);
      } else {
        var queryStart := i;
        var ok;
        ok, i := SkipQueryPart(query, i);
        if !ok || i == |query| - 1 {
          ret := JSONBadParameter;
          break;
        }
        found, value, n := ObjectSearch(window, query[queryStart..i]);
      }
      if !found {
        ret := JSONNotFound;
        break;
      }
      start, length := start + value, n;
      if i < |query| && query[i] == DOT {
        i := i + 1;
      }
    }
    if ret == JSONSuccess {
      outValue, outValueLength := start, length;
    }
  }

  function GetType(c: byte): ValueType {
    if c == QUOTE then JSONString
    else if c == LBRACE then JSONObject
    else if c == LSQUARE then JSONArray
    else if c == 116 then JSONTrue
    else if c == 102 then JSONFalse
    else if c == 110 then JSONNull
    else JSONNumber
  }

  datatype Answer = Answer(value: nat, length: int, kind: ValueType)

  /** The text of a value as reported to the caller: strings lose their quotes. */
  function Report(b: bytes, value: nat, length: nat): Answer
    requires value < |b|
  {
    var t := GetType(b[value]);
    if t == JSONString then Answer(value + 1, length - 2, t) else Answer(value, length, t)
  }

  function SearchResult(b: bytes, q: bytes): (r: (Status, Option<Answer>)) {
    if |b| == 0 || |q| == 0 then (JSONBadParameter, None)
    else
      var (ret, value, length) := MultiSearchFrom(b, q, 0, 0, |b|);
      if ret == JSONSuccess then (ret, Some(Report(b, value, length))) else (ret, None)
  }

  method SearchConst(buf: bytes, query: bytes) returns (ret: Status, answer: Option<Answer>)
    ensures (ret, answer) == SearchResult(buf, query)
  {
    hide MultiSearchFrom;
    answer := None;
    if |buf| == 0 || |query| == 0 {
      ret := JSONBadParameter;
    } else {
      var value, length;
      ret, value, length := MultiSearch(buf, query);
      if ret == JSONSuccess {
        var t := GetType(buf[value]);
        var n: int := length;
        if t == JSONString {
          value := value + 1;
          n := n - 2;
        }
        answer := Some(Answer(value, n, t));
      }
    }
  }

  // ---- iteration ----

  datatype Member = Member(key: Option<nat>, keyLength: nat, value: Answer)

  datatype Iteration = Iteration(status: Status, start: nat, next: nat, pair: Option<Member>)

  /** One call of JSON_Iterate: status, the new start and next, and the pair it yields. */
  function IterateFrom(b: bytes, start: nat, next: nat): (r: Iteration)
    ensures r.status == JSONSuccess <==> r.pair.Some?
  {
    if |b| == 0 || start >= |b| || next > |b| then Iteration(JSONBadParameter, start, next, None)
    else
      var s := SpaceEnd(b, start);
      var n := if next <= s then SpaceEnd(b, s + 1) else next;
      if s >= |b| then Iteration(JSONNotFound, s, n, None)
      else if b[s] == LSQUARE then
        match ValueEnd(b, n)
        case None => Iteration(JSONNotFound, s, n, None)
        case Some(e) =>
          Iteration(JSONSuccess, s, CommaEnd(b, e).1, Some(Member(None, 0, Report(b, n, e - n))))
      else if b[s] == LBRACE then
        match MemberAt(b, n)
        case None => Iteration(JSONNotFound, s, n, None)
        case Some(m) =>
          Iteration(JSONSuccess, s, CommaEnd(b, m.end).1,
                    Some(Member(Some(m.key), m.keyLength, Report(b, m.value, m.end - m.value))))
      else Iteration(JSONIllegalDocument, s, n, None)
  }

  method Iterate(buf: bytes, start: nat, next: nat) returns (r: Iteration)
    ensures r == IterateFrom(buf, start, next)
  {
    hide ValueEnd, MemberAt, CommaEnd, SpaceEnd;
    if |buf| == 0 || start >= |buf| || next > |buf| {
      return Iteration(JSONBadParameter, start, next, None);
    }
    var s := SkipSpace(buf, start);
    var n := next;
    if n <= s {
      n := s + 1;
      n := SkipSpace(buf, n);
    }
    var ret, found, end, key, keyLength, value, valueLength := JSONNotFound, false, n, 0, 0, 0, 0;
    if s < |buf| {
      if buf[s] == LSQUARE {
        found, end, value, valueLength := NextValue(buf, n);
      } else if buf[s] == LBRACE {
        found, end, key, keyLength, value, valueLength := NextKeyValuePair(buf, n);
      } else {
        ret := JSONIllegalDocument;
      }
    }
    if !found {
      return Iteration(ret, s, n, None);
    }
    ret := JSONSuccess;
    var _, e := SkipSpaceAndComma(buf, end);
    var t := GetType(buf[value]);
    var length: int := valueLength;
    if t == JSONString {
      value := value + 1;
      length := length - 2;
    }
    r := Iteration(ret, s, e, Some(Member(if key == 0 then None else Some(key), keyLength, Answer(value, length, t))));
  }
}
