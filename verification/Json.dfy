/**
 JSON values with integer numbers, and the canonical text of lib/nz-crypto-routing.js, lines 13 to 25.
 Strings are UTF-16 code units; objects are lists of entries in insertion order.
 */
module Json {
  import opened Results
  import opened Text

  type Chars = seq<Unit>

  datatype Value =
    | Undefined
    | Null
    | Bool(b: bool)
    | Num(n: int)
    | Str(s: Chars)
    | Arr(items: seq<Value>)
    | Obj(entries: seq<(Chars, Value)>)

  const QUOTE: Unit := 34
  const COMMA: Unit := 44
  const COLON: Unit := 58
  const LBRACKET: Unit := 91
  const BACKSLASH: Unit := 92
  const RBRACKET: Unit := 93
  const LBRACE: Unit := 123
  const RBRACE: Unit := 125

  // ----- Strings: section 7 of RFC 8259, as JSON.stringify escapes them -----

  predicate IsHigh(c: Unit) { 0xD800 <= c < 0xDC00 }

  predicate IsLow(c: Unit) { 0xDC00 <= c < 0xE000 }

  function HexDigit(d: int): Unit
    requires 0 <= d < 16
  {
    if d < 10 then ZERO + d else 87 + d
  }

  function Hex4(c: Unit): (r: Chars)
    ensures |r| == 4
  {
    [HexDigit(c / 0x1000), HexDigit(c / 0x100 % 0x10), HexDigit(c / 0x10 % 0x10), HexDigit(c % 0x10)]
  }

  /** The letter of a two-character escape, or zero. */
  function ShortEscape(c: Unit): Unit {
    if c == 8 then 98 else if c == 9 then 116 else if c == 10 then 110 else if c == 12 then 102
    else if c == 13 then 114 else if c == QUOTE then QUOTE else if c == BACKSLASH then BACKSLASH else 0
  }

  /** One code unit; alone tells that it is a surrogate without its partner. */
  function EscapedUnit(c: Unit, alone: bool): Chars {
    if ShortEscape(c) != 0 then [BACKSLASH, ShortEscape(c)]
    else if c < 0x20 || alone then [BACKSLASH, 117] + Hex4(c)
    else [c]
  }

  /** Whether the string starts with a surrogate pair, which is not escaped. */
  predicate StartsPair(s: Chars) {
    |s| > 1 && IsHigh(s[0]) && IsLow(s[1])
  }

  function EscapedStart(s: Chars): Chars
    requires s != []
  {
    if StartsPair(s) then s[..2] else EscapedUnit(s[0], IsHigh(s[0]) || IsLow(s[0]))
  }

  function Escaped(s: Chars): Chars {
    if s == [] then [] else EscapedStart(s) + Escaped(s[(if StartsPair(s) then 2 else 1)..])
  }

  function Quoted(s: Chars): Chars {
    [QUOTE] + Escaped(s) + [QUOTE]
  }

  // ----- Key order -----

  /** The default order of Array.prototype.sort on strings: by code units. */
  predicate Less(a: Chars, b: Chars) {
    b != [] && (a == [] || a[0] < b[0] || (a[0] == b[0] && Less(a[1..], b[1..])))
  }

  function InsertEntry(es: seq<(Chars, Value)>, e: (Chars, Value)): seq<(Chars, Value)> {
    if es == [] || Less(e.0, es[0].0) then [e] + es else [es[0]] + InsertEntry(es[1..], e)
  }

  function SortEntries(es: seq<(Chars, Value)>): (r: seq<(Chars, Value)>)
    ensures |r| == |es| && forall e :: e in r <==> e in es
  {
    if es == [] then [] else
      var rest := SortEntries(es[1..]);
      InsertMembers(rest, es[0]);
      InsertEntry(rest, es[0])
  }

  lemma {:induction false} InsertMembers(es: seq<(Chars, Value)>, e: (Chars, Value))
    ensures |InsertEntry(es, e)| == |es| + 1
    ensures forall x :: x in InsertEntry(es, e) <==> x in es || x == e
  {
    if es != [] && !Less(e.0, es[0].0) {
      InsertMembers(es[1..], e);
      assert es == [es[0]] + es[1..];
    }
  }

  // ----- The canonical text -----

  function Join(texts: seq<Chars>): Chars {
    if texts == [] then []
    else if |texts| == 1 then texts[0]
    else texts[0] + [COMMA] + Join(texts[1..])
  }

  function NumText(n: int): Chars {
    if n < 0 then [MINUS] + Decimal(-n) else Decimal(n)
  }

  /** An undefined array element joins as the empty string; elsewhere undefined prints as its name. */
  function StableStringify(v: Value): Chars {
    match v
    case Undefined => Ascii("undefined")
    case Null => Ascii("null")
    case Bool(b) => if b then Ascii("true") else Ascii("false")
    case Num(n) => NumText(n)
    case Str(s) => Quoted(s)
    case Arr(items) =>
      [LBRACKET] + Join(seq(|items|, i requires 0 <= i < |items| =>
        if items[i].Undefined? then [] else StableStringify(items[i]))) + [RBRACKET]
    case Obj(entries) =>
      var sorted := SortEntries(entries);
      [LBRACE] + Join(seq(|sorted|, i requires 0 <= i < |sorted| =>
        assert sorted[i] in entries;
        Quoted(sorted[i].0) + [COLON] + StableStringify(sorted[i].1))) + [RBRACE]
  }

  /** The value with the keys of every object sorted. */
  function Canonical(v: Value): Value {
    match v
    case Arr(items) => Arr(seq(|items|, i requires 0 <= i < |items| => Canonical(items[i])))
    case Obj(entries) =>
      var sorted := SortEntries(entries);
      Obj(seq(|sorted|, i requires 0 <= i < |sorted| =>
        assert sorted[i] in entries;
        (sorted[i].0, Canonical(sorted[i].1))))
    case _ => v
  }

  ghost predicate DistinctKeys(es: seq<(Chars, Value)>) {
    forall i, j :: 0 <= i < j < |es| ==> es[i].0 != es[j].0
  }

  /** No array is [undefined], the one text that stands for two arrays, and no object has a key twice. */
  ghost predicate WellFormed(v: Value) {
    match v
    case Arr(items) => items != [Undefined] && forall x :: x in items ==> WellFormed(x)
    case Obj(entries) => DistinctKeys(entries) && forall e :: e in entries ==> WellFormed(e.1)
    case _ => true
  }

  // ----- A parser for the canonical text -----

  function HexValue(c: Unit): Option<int> {
    if IsDigit(c) then Some(c - ZERO) else if 97 <= c <= 102 then Some(c - 87) else None
  }

  function LongEscape(s: Chars): Option<Unit> {
    if |s| < 4 then None else
      match (HexValue(s[0]), HexValue(s[1]), HexValue(s[2]), HexValue(s[3]))
      case (Some(a), Some(b), Some(c), Some(d)) =>
        var n := 0x1000 * a + 0x100 * b + 0x10 * c + d;
        if 0 <= n < 0x1_0000 then Some(n) else None
      case _ => None
  }

  function ShortUnescape(c: Unit): Option<Unit> {
    if c == 98 then Some(8) else if c == 116 then Some(9) else if c == 110 then Some(10)
    else if c == 102 then Some(12) else if c == 114 then Some(13)
    else if c == QUOTE then Some(QUOTE) else if c == BACKSLASH then Some(BACKSLASH) else None
  }

  /** Reads up to the closing quote. */
  function ParseString(s: Chars): (r: Option<(Chars, Chars)>)
    ensures r.Some? ==> |r.value.1| < |s|
  {
    if s == [] then None
    else if s[0] == QUOTE then Some(([], s[1..]))
    else if s[0] != BACKSLASH then Prepend(s[0], ParseString(s[1..]))
    else if |s| < 2 then None
    else if s[1] == 117 then
      (if |s| < 6 || LongEscape(s[2..]).None? then None
       else Prepend(LongEscape(s[2..]).value, ParseString(s[6..])))
    else if ShortUnescape(s[1]).None? then None
    else Prepend(ShortUnescape(s[1]).value, ParseString(s[2..]))
  }

  function Prepend<T>(x: T, r: Option<(seq<T>, Chars)>): Option<(seq<T>, Chars)> {
    if r.None? then None else Some(([x] + r.value.0, r.value.1))
  }

  /** The length of the longest prefix of digits. */
  function DigitSpan(s: Chars): (n: nat)
    ensures n <= |s| && AllDigits(s[..n])
  {
    if s == [] || !IsDigit(s[0]) then 0 else
      assert s[..DigitSpan(s[1..]) + 1] == [s[0]] + s[1..][..DigitSpan(s[1..])];
      DigitSpan(s[1..]) + 1
  }

  function ParseNumber(s: Chars): (r: Option<(Value, Chars)>)
    ensures r.Some? ==> |r.value.1| < |s|
  {
    if s != [] && s[0] == MINUS then
      var n := DigitSpan(s[1..]);
      if n == 0 then None else Some((Num(0 - Numeral(s[1..][..n])), s[1..][n..]))
    else
      var n := DigitSpan(s);
      if n == 0 then None else Some((Num(Numeral(s[..n])), s[n..]))
  }

  function ParseWord(s: Chars, word: Chars, v: Value): (r: Option<(Value, Chars)>)
    requires word != []
    ensures r.Some? ==> |r.value.1| < |s|
  {
    if word <= s then Some((v, s[|word|..])) else None
  }

  function ParseValue(s: Chars): (r: Option<(Value, Chars)>)
    ensures r.Some? ==> |r.value.1| < |s|
    decreases |s|, 0
  {
    if s == [] then None
    else if s[0] == QUOTE then
      match ParseString(s[1..])
      case None => None
      case Some((str, rest)) => Some((Str(str), rest))
    else if s[0] == LBRACKET then
      if |s| > 1 && s[1] == RBRACKET then Some((Arr([]), s[2..]))
      else
        match ParseElements(s[1..])
        case None => None
        case Some((items, rest)) => Some((Arr(items), rest))
    else if s[0] == LBRACE then
      if |s| > 1 && s[1] == RBRACE then Some((Obj([]), s[2..]))
      else
        match ParseMembers(s[1..])
        case None => None
        case Some((entries, rest)) => Some((Obj(entries), rest))
    else if s[0] == 117 then ParseWord(s, Ascii("undefined"), Undefined)
    else if s[0] == 110 then ParseWord(s, Ascii("null"), Null)
    else if s[0] == 116 then ParseWord(s, Ascii("true"), Bool(true))
    else if s[0] == 102 then ParseWord(s, Ascii("false"), Bool(false))
    else ParseNumber(s)
  }

  /** One or more values separated by commas, up to the closing bracket; an empty one is undefined. */
  function ParseElements(s: Chars): (r: Option<(seq<Value>, Chars)>)
    ensures r.Some? ==> |r.value.1| < |s|
    decreases |s|, 1
  {
    if s != [] && s[0] == COMMA then Prepend(Undefined, ParseElements(s[1..]))
    else if s != [] && s[0] == RBRACKET then Some(([Undefined], s[1..]))
    else
      match ParseValue(s)
      case None => None
      case Some((v, rest)) =>
        if rest != [] && rest[0] == COMMA then Prepend(v, ParseElements(rest[1..]))
        else if rest != [] && rest[0] == RBRACKET then Some(([v], rest[1..]))
        else None
  }

  function ParseMembers(s: Chars): (r: Option<(seq<(Chars, Value)>, Chars)>)
    ensures r.Some? ==> |r.value.1| < |s|
    decreases |s|, 1
  {
    if s == [] || s[0] != QUOTE then None else
      match ParseString(s[1..])
      case None => None
      case Some((key, rest)) =>
        if rest == [] || rest[0] != COLON then None else
          match ParseValue(rest[1..])
          case None => None
          case Some((v, rest')) =>
            if rest' != [] && rest'[0] == COMMA then Prepend((key, v), ParseMembers(rest'[1..]))
            else if rest' != [] && rest'[0] == RBRACE then Some(([(key, v)], rest'[1..]))
            else None
  }

  /** Parses a whole text. */
  function Parse(s: Chars): Option<Value> {
    match ParseValue(s)
    case Some((v, rest)) => if rest == [] then Some(v) else None
    case None => None
  }

  // ----- Round trip -----

  lemma HexRoundTrip(c: Unit, rest: Chars)
    ensures LongEscape(Hex4(c) + rest) == Some(c)
  {
    var s := Hex4(c) + rest;
    assert s[0] == Hex4(c)[0] && s[1] == Hex4(c)[1] && s[2] == Hex4(c)[2] && s[3] == Hex4(c)[3];
    assert c == 0x1000 * (c / 0x1000) + 0x100 * (c / 0x100 % 0x10) + 0x10 * (c / 0x10 % 0x10) + c % 0x10 by {
      assert c / 0x100 == c / 0x10 / 0x10 && c / 0x1000 == c / 0x100 / 0x10;
    }
  }

  lemma ShortRoundTrip(c: Unit)
    requires ShortEscape(c) != 0
    ensures ShortUnescape(ShortEscape(c)) == Some(c) && ShortEscape(c) != 117
  {
  }

  lemma {:induction false} ParseShort(x: Unit, rest: Chars)
    requires x != 117 && ShortUnescape(x).Some?
    ensures ParseString([BACKSLASH, x] + rest) == Prepend(ShortUnescape(x).value, ParseString(rest))
  {
    var s := [BACKSLASH, x] + rest;
    assert s[2..] == rest;
  }

  lemma {:induction false} ParseLong(c: Unit, rest: Chars)
    ensures ParseString([BACKSLASH, 117] + Hex4(c) + rest) == Prepend(c, ParseString(rest))
  {
    hide Hex4, LongEscape;
    var s := [BACKSLASH, 117] + Hex4(c) + rest;
    assert s[1] == 117 && s[2..] == Hex4(c) + rest && s[6..] == rest;
    HexRoundTrip(c, rest);
  }

  lemma {:induction false} UnitRoundTrip(c: Unit, alone: bool, rest: Chars)
    ensures ParseString(EscapedUnit(c, alone) + rest) == Prepend(c, ParseString(rest))
  {
    if ShortEscape(c) != 0 {
      ShortRoundTrip(c);
      ParseShort(ShortEscape(c), rest);
    } else if c < 0x20 || alone {
      ParseLong(c, rest);
    } else {
      assert ([c] + rest)[1..] == rest;
    }
  }

  lemma {:induction false} PairRoundTrip(h: Unit, l: Unit, t: Chars)
    requires IsHigh(h) && IsLow(l)
    ensures ParseString([h, l] + t) == Prepend(h, Prepend(l, ParseString(t)))
  {
    var s := [h, l] + t;
    assert s[1..] == [l] + t && ([l] + t)[1..] == t;
  }

  lemma {:induction false} ParseClose(rest: Chars)
    ensures ParseString([QUOTE] + rest) == Some(([], rest))
  {
  }

  /** The start of a string is read back before what follows it. */
  lemma {:induction false} StartRoundTrip(s: Chars, t: Chars)
    requires s != []
    ensures ParseString(EscapedStart(s) + t)
         == if StartsPair(s) then Prepend(s[0], Prepend(s[1], ParseString(t))) else Prepend(s[0], ParseString(t))
  {
    hide EscapedUnit, ParseString;
    if StartsPair(s) {
      PairRoundTrip(s[0], s[1], t);
      assert s[..2] == [s[0], s[1]];
    } else {
      UnitRoundTrip(s[0], IsHigh(s[0]) || IsLow(s[0]), t);
    }
  }

  lemma ConcatAssociative(a: Chars, b: Chars, c: Chars)
    ensures (a + b) + c == a + (b + c)
  {
  }

  lemma {:induction false} StringRoundTrip(s: Chars, rest: Chars)
    ensures ParseString(Escaped(s) + ([QUOTE] + rest)) == Some((s, rest))
  {
    hide EscapedStart, IsHigh, IsLow, ParseString;
    var tail := [QUOTE] + rest;
    if s == [] {
      assert Escaped(s) + tail == tail;
      ParseClose(rest);
    } else {
      var n := if StartsPair(s) then 2 else 1;
      StringRoundTrip(s[n..], rest);
      ConcatAssociative(EscapedStart(s), Escaped(s[n..]), tail);
      StartRoundTrip(s, Escaped(s[n..]) + tail);
      assert n == 1 ==> s == [s[0]] + s[1..];
      assert n == 2 ==> s == [s[0]] + ([s[1]] + s[2..]);
    }
  }

  /** What follows a number must not continue it. */
  predicate Ends(rest: Chars) {
    rest == [] || !IsDigit(rest[0])
  }

  lemma {:induction false} SpanOfDigits(d: Chars, rest: Chars)
    requires AllDigits(d) && Ends(rest)
    ensures DigitSpan(d + rest) == |d|
  {
    if d == [] {
      assert d + rest == rest;
    } else {
      assert (d + rest)[1..] == d[1..] + rest;
      SpanOfDigits(d[1..], rest);
    }
  }

  lemma {:induction false} NaturalRoundTrip(n: nat, rest: Chars)
    requires Ends(rest)
    ensures var d := Decimal(n); var s := d + rest;
      DigitSpan(s) == |d| && Numeral(s[..|d|]) == n && s[|d|..] == rest && IsDigit(s[0])
  {
    var d := Decimal(n);
    NumeralOfDecimal(n);
    SpanOfDigits(d, rest);
    assert (d + rest)[..|d|] == d;
  }

  lemma {:induction false} NumberDispatch(s: Chars)
    requires s != [] && (s[0] == MINUS || IsDigit(s[0]))
    ensures ParseValue(s) == ParseNumber(s)
  {
    hide ParseNumber;
  }

  lemma {:induction false} NumberRoundTrip(n: int, rest: Chars)
    requires Ends(rest)
    ensures ParseValue(NumText(n) + rest) == Some((Num(n), rest))
  {
    hide Decimal, Numeral, DigitSpan, ParseValue;
    var s := NumText(n) + rest;
    if n < 0 {
      NaturalRoundTrip(-n, rest);
      assert s == [MINUS] + (Decimal(-n) + rest);
      assert s[1..] == Decimal(-n) + rest;
    } else {
      NaturalRoundTrip(n, rest);
    }
    NumberDispatch(s);
  }

  lemma WordRoundTrip(word: Chars, rest: Chars, v: Value)
    requires word != []
    ensures ParseWord(word + rest, word, v) == Some((v, rest))
  {
  }

  /** What precedes each element's separator in an array: its text. */
  function ElementTexts(items: seq<Value>): seq<Chars> {
    seq(|items|, i requires 0 <= i < |items| => ElementText(items[i]))
  }

  function ElementText(x: Value): Chars {
    if x.Undefined? then [] else StableStringify(x)
  }

  function MemberText(e: (Chars, Value)): Chars {
    Quoted(e.0) + [COLON] + StableStringify(e.1)
  }

  function MemberTexts(entries: seq<(Chars, Value)>): seq<Chars> {
    seq(|entries|, i requires 0 <= i < |entries| => MemberText(entries[i]))
  }

  function CanonicalItems(items: seq<Value>): seq<Value> {
    seq(|items|, i requires 0 <= i < |items| => Canonical(items[i]))
  }

  function CanonicalEntries(entries: seq<(Chars, Value)>): seq<(Chars, Value)> {
    seq(|entries|, i requires 0 <= i < |entries| => (entries[i].0, Canonical(entries[i].1)))
  }

  lemma {:induction false} TextOfContainer(v: Value)
    ensures v.Arr? ==> StableStringify(v) == [LBRACKET] + Join(ElementTexts(v.items)) + [RBRACKET]
    ensures v.Arr? ==> Canonical(v) == Arr(CanonicalItems(v.items))
    ensures v.Obj? ==> StableStringify(v) == [LBRACE] + Join(MemberTexts(SortEntries(v.entries))) + [RBRACE]
    ensures v.Obj? ==> Canonical(v) == Obj(CanonicalEntries(SortEntries(v.entries)))
  {
    if v.Arr? {
      assert ElementTexts(v.items) == seq(|v.items|, i requires 0 <= i < |v.items| =>
        if v.items[i].Undefined? then [] else StableStringify(v.items[i]));
    } else if v.Obj? {
      var sorted := SortEntries(v.entries);
      assert MemberTexts(sorted) == seq(|sorted|, i requires 0 <= i < |sorted| =>
        assert sorted[i] in v.entries;
        Quoted(sorted[i].0) + [COLON] + StableStringify(sorted[i].1));
    }
  }

  /** The first character of a text, by kind of value. */
  lemma {:induction false} FirstUnit(v: Value)
    ensures StableStringify(v) != []
    ensures !(StableStringify(v)[0] in {COMMA, COLON, RBRACKET, RBRACE})
  {
    match v
    case Num(n) => assert n >= 0 ==> IsDigit(Decimal(n)[0]);
    case _ =>
  }

  /**
   The parser recovers the value up to the order of keys, and stops where the text ended.
   */
  lemma {:induction false} RoundTrip(v: Value, rest: Chars)
    requires WellFormed(v) && Ends(rest)
    ensures ParseValue(StableStringify(v) + rest) == Some((Canonical(v), rest))
    decreases v, 2, 0
  {
    hide NumText, Decimal, Escaped, SortEntries;
    match v
    case Undefined => WordRoundTrip(Ascii("undefined"), rest, v);
    case Null => WordRoundTrip(Ascii("null"), rest, v);
    case Bool(b) => WordRoundTrip(if b then Ascii("true") else Ascii("false"), rest, v);
    case Num(n) => NumberRoundTrip(n, rest);
    case Str(s) =>
      StringRoundTrip(s, rest);
      assert (Quoted(s) + rest)[1..] == Escaped(s) + ([QUOTE] + rest);
    case Arr(items) =>
      ArrayRoundTrip(v, rest);
    case Obj(entries) =>
      ObjectRoundTrip(v, rest);
  }

  lemma {:induction false} ArrayRoundTrip(v: Value, rest: Chars)
    requires v.Arr? && WellFormed(v)
    ensures ParseValue(StableStringify(v) + rest) == Some((Canonical(v), rest))
    decreases v, 1, 0
  {
    hide StableStringify, Canonical;
    TextOfContainer(v);
    var texts := ElementTexts(v.items);
    var s := StableStringify(v) + rest;
    if v.items == [] {
      assert CanonicalItems(v.items) == [] && s == [LBRACKET, RBRACKET] + rest;
      assert s[2..] == rest;
    } else {
      var t := Join(texts) + [RBRACKET] + rest;
      assert s[1..] == t;
      ElementsRoundTrip(v, 0, rest);
      assert texts[0..] == texts && CanonicalItems(v.items)[0..] == CanonicalItems(v.items);
      JoinHead(texts);
      FirstUnit(v.items[0]);
      if v.items[0].Undefined? {
        NotAlone(v);
        assert t[0] == COMMA;
      } else {
        assert t[0] == StableStringify(v.items[0])[0];
      }
    }
  }

  lemma {:induction false} NotAlone(v: Value)
    requires v.Arr? && WellFormed(v) && v.items != [] && v.items[0].Undefined?
    ensures |v.items| > 1
  {
    assert v.items != [v.items[0]];
  }

  lemma {:induction false} JoinHead(texts: seq<Chars>)
    requires texts != []
    ensures texts[0] <= Join(texts)
    ensures |texts| == 1 ==> Join(texts) == texts[0]
    ensures |texts| > 1 ==> Join(texts) == texts[0] + [COMMA] + Join(texts[1..])
  {
  }

  lemma {:induction false} ElementsRoundTrip(v: Value, i: nat, rest: Chars)
    requires v.Arr? && WellFormed(v) && i < |v.items|
    ensures ParseElements(Join(ElementTexts(v.items)[i..]) + [RBRACKET] + rest)
         == Some((CanonicalItems(v.items)[i..], rest))
    decreases v, 0, |v.items| - i
  {
    hide StableStringify, Canonical, ParseValue, ParseElements, Join, WellFormed, ElementText;
    var x, texts, items := v.items[i], ElementTexts(v.items)[i..], CanonicalItems(v.items);
    ItemWellFormed(v, i);
    JoinHead(texts);
    if i == |v.items| - 1 {
      var tail := [RBRACKET] + rest;
      assert Join(texts) + [RBRACKET] + rest == ElementText(x) + tail;
      RoundTrip(x, tail);
      ElementStep(x, tail);
      assert tail[1..] == rest;
      assert items[i..] == [Canonical(x)];
    } else {
      var t := Join(texts[1..]) + [RBRACKET] + rest;
      var tail := [COMMA] + t;
      assert texts[1..] == ElementTexts(v.items)[i + 1..];
      assert Join(texts) + [RBRACKET] + rest == ElementText(x) + tail;
      RoundTrip(x, tail);
      ElementStep(x, tail);
      ElementsRoundTrip(v, i + 1, rest);
      assert tail[1..] == t;
      assert items[i..] == [Canonical(x)] + items[i + 1..];
    }
  }

  lemma {:induction false} ItemWellFormed(v: Value, i: nat)
    requires v.Arr? && WellFormed(v) && i < |v.items|
    ensures WellFormed(v.items[i]) && v.items[i] < v
  {
    assert v.items[i] in v.items;
  }

  /** One element is read, and the character after it decides. */
  lemma {:induction false} ElementStep(x: Value, tail: Chars)
    requires tail != [] && (tail[0] == COMMA || tail[0] == RBRACKET)
    requires ParseValue(StableStringify(x) + tail) == Some((Canonical(x), tail))
    ensures ParseElements(ElementText(x) + tail)
         == if tail[0] == COMMA then Prepend(Canonical(x), ParseElements(tail[1..]))
            else Some(([Canonical(x)], tail[1..]))
  {
    FirstUnit(x);
    hide StableStringify, ParseValue;
    if x.Undefined? { assert ElementText(x) + tail == tail; }
  }

  lemma {:induction false} ObjectRoundTrip(v: Value, rest: Chars)
    requires v.Obj? && WellFormed(v)
    ensures ParseValue(StableStringify(v) + rest) == Some((Canonical(v), rest))
    decreases v, 1, 0
  {
    hide StableStringify, Canonical, SortEntries, ParseMembers, Join, MemberText, WellFormed;
    TextOfContainer(v);
    JoinNothing();
    var sorted := SortEntries(v.entries);
    var texts := MemberTexts(sorted);
    var s := StableStringify(v) + rest;
    if sorted == [] {
      assert CanonicalEntries(sorted) == [] && s == [LBRACE, RBRACE] + rest;
      assert s[2..] == rest;
    } else {
      var t := Join(texts) + [RBRACE] + rest;
      assert s[1..] == t;
      MembersRoundTrip(v, sorted, 0, rest);
      assert texts[0..] == texts && CanonicalEntries(sorted)[0..] == CanonicalEntries(sorted);
      JoinHead(texts);
      MemberStart(sorted[0]);
      assert t[0] == MemberText(sorted[0])[0];
    }
  }

  lemma JoinNothing()
    ensures Join([]) == []
  {
  }

  lemma MemberStart(e: (Chars, Value))
    ensures MemberText(e) != [] && MemberText(e)[0] == QUOTE
  {
  }

  lemma {:induction false} MembersRoundTrip(v: Value, sorted: seq<(Chars, Value)>, i: nat, rest: Chars)
    requires v.Obj? && WellFormed(v) && i < |sorted| && forall e :: e in sorted ==> e in v.entries
    ensures ParseMembers(Join(MemberTexts(sorted)[i..]) + [RBRACE] + rest)
         == Some((CanonicalEntries(sorted)[i..], rest))
    decreases v, 0, |sorted| - i
  {
    hide StableStringify, Canonical, ParseValue, ParseMembers, MemberText, Join, WellFormed;
    var e, texts, entries := sorted[i], MemberTexts(sorted)[i..], CanonicalEntries(sorted);
    assert e in v.entries;
    MemberWellFormed(v, e);
    JoinHead(texts);
    if i == |sorted| - 1 {
      var tail := [RBRACE] + rest;
      assert Join(texts) + [RBRACE] + rest == MemberText(e) + tail;
      RoundTrip(e.1, tail);
      MemberStep(e, tail);
      assert tail[1..] == rest;
      assert entries[i..] == [(e.0, Canonical(e.1))];
    } else {
      var t := Join(texts[1..]) + [RBRACE] + rest;
      var tail := [COMMA] + t;
      assert texts[1..] == MemberTexts(sorted)[i + 1..];
      assert Join(texts) + [RBRACE] + rest == MemberText(e) + tail;
      RoundTrip(e.1, tail);
      MemberStep(e, tail);
      MembersRoundTrip(v, sorted, i + 1, rest);
      assert tail[1..] == t;
      assert entries[i..] == [(e.0, Canonical(e.1))] + entries[i + 1..];
    }
  }

  lemma {:induction false} MemberWellFormed(v: Value, e: (Chars, Value))
    requires v.Obj? && WellFormed(v) && e in v.entries
    ensures WellFormed(e.1) && e.1 < v
  {
  }

  /** One member is read, and the character after it decides. */
  lemma {:induction false} MemberStep(e: (Chars, Value), tail: Chars)
    requires tail != [] && (tail[0] == COMMA || tail[0] == RBRACE)
    requires ParseValue(StableStringify(e.1) + tail) == Some((Canonical(e.1), tail))
    ensures ParseMembers(MemberText(e) + tail)
         == if tail[0] == COMMA then Prepend((e.0, Canonical(e.1)), ParseMembers(tail[1..]))
            else Some(([(e.0, Canonical(e.1))], tail[1..]))
  {
    hide StableStringify, Canonical, ParseValue, ParseString, MemberText;
    MemberRoundTrip(e, tail);
  }

  /** The key and the colon of a member are read back. */
  lemma MemberRoundTrip(e: (Chars, Value), tail: Chars)
    ensures var s := MemberText(e) + tail; var rest := [COLON] + (StableStringify(e.1) + tail);
      s != [] && s[0] == QUOTE && ParseString(s[1..]) == Some((e.0, rest)) && rest[1..] == StableStringify(e.1) + tail
  {
    hide StableStringify, Escaped;
    var rest := [COLON] + (StableStringify(e.1) + tail);
    var s := MemberText(e) + tail;
    StringRoundTrip(e.0, rest);
    assert s[1..] == Escaped(e.0) + ([QUOTE] + rest);
  }

  // ----- The text, with its characters spelled out -----

  function HexText(d: int): Unit
    requires 0 <= d < 16
  {
    Ascii("0123456789abcdef")[d]
  }

  lemma HexDigitIs(d: int)
    requires 0 <= d < 16
    ensures HexDigit(d) == HexText(d)
  {
  }

  /** How each code unit is written inside a string: section 7 of RFC 8259, with lower-case escapes. */
  lemma EscapeTable(c: Unit)
    ensures Escaped([c]) ==
      if c == 8 then Ascii("\\b") else if c == 9 then Ascii("\\t") else if c == 10 then Ascii("\\n")
      else if c == 12 then Ascii("\\f") else if c == 13 then Ascii("\\r")
      else if c == 34 then Ascii("\\\"") else if c == 92 then Ascii("\\\\")
      else if c < 0x20 then Ascii("\\u00") + [HexText(c / 16), HexText(c % 16)]
      else if 0xD800 <= c < 0xE000 then
        Ascii("\\u") + [HexText(c / 0x1000), HexText(c / 0x100 % 16), HexText(c / 16 % 16), HexText(c % 16)]
      else [c]
  {
    EscapedOne(c);
    if ShortEscape(c) != 0 {
      ShortTable(c);
    } else if c < 0x20 || 0xD800 <= c < 0xE000 {
      LongText(c);
    }
  }

  lemma EscapedOne(c: Unit)
    ensures Escaped([c]) == EscapedUnit(c, 0xD800 <= c < 0xE000)
  {
    assert [c][1..] == [];
  }

  lemma ShortTable(c: Unit)
    requires ShortEscape(c) != 0
    ensures [BACKSLASH, ShortEscape(c)] ==
      if c == 8 then Ascii("\\b") else if c == 9 then Ascii("\\t") else if c == 10 then Ascii("\\n")
      else if c == 12 then Ascii("\\f") else if c == 13 then Ascii("\\r")
      else if c == 34 then Ascii("\\\"") else Ascii("\\\\")
  {
  }

  lemma LongText(c: Unit)
    ensures [BACKSLASH, 117] + Hex4(c) ==
      Ascii("\\u") + [HexText(c / 0x1000), HexText(c / 0x100 % 16), HexText(c / 16 % 16), HexText(c % 16)]
    ensures c < 0x20 ==> [BACKSLASH, 117] + Hex4(c) == Ascii("\\u00") + [HexText(c / 16), HexText(c % 16)]
  {
    HexDigitIs(c / 0x1000);
    HexDigitIs(c / 0x100 % 16);
    HexDigitIs(c / 16 % 16);
    HexDigitIs(c % 16);
    HexDigitIs(0);
    hide HexText, HexDigit;
    assert Ascii("\\u") == [BACKSLASH, 117] && Ascii("\\u00") == [BACKSLASH, 117, 48, 48];
    assert HexText(0) == 48 by { ZeroText(); }
  }

  lemma ZeroText()
    ensures HexText(0) == 48
  {
  }

  /** A surrogate pair is written as it is. */
  lemma PairUnescaped(high: Unit, low: Unit)
    requires 0xD800 <= high < 0xDC00 <= low < 0xE000
    ensures Escaped([high, low]) == [high, low]
  {
    assert [high, low][2..] == [] && [high, low][..2] == [high, low];
  }

  /** Strings are written unit by unit, unless a pair is split. */
  lemma {:induction false} EscapedAppend(s: Chars, t: Chars)
    requires !(s != [] && t != [] && IsHigh(s[|s| - 1]) && IsLow(t[0]))
    ensures Escaped(s + t) == Escaped(s) + Escaped(t)
  {
    hide EscapedUnit, IsHigh, IsLow;
    if s == [] {
      assert s + t == t;
    } else {
      var n := if StartsPair(s) then 2 else 1;
      StartOfAppend(s, t);
      assert (s + t)[n..] == s[n..] + t;
      EscapedAppend(s[n..], t);
      ConcatAssociative(EscapedStart(s), Escaped(s[n..]), Escaped(t));
    }
  }

  lemma StartOfAppend(s: Chars, t: Chars)
    requires s != [] && !(t != [] && IsHigh(s[|s| - 1]) && IsLow(t[0]))
    ensures StartsPair(s + t) == StartsPair(s) && EscapedStart(s + t) == EscapedStart(s)
  {
    if StartsPair(s) { assert (s + t)[..2] == s[..2]; }
  }

  /** The text of values that are not containers. */
  lemma {:induction false} ScalarText(v: Value)
    requires !v.Arr? && !v.Obj?
    ensures StableStringify(v) == match v
      case Undefined => Ascii("undefined")
      case Null => Ascii("null")
      case Bool(b) => if b then Ascii("true") else Ascii("false")
      case Num(n) => if n < 0 then Ascii("-") + Decimal(-n) else Decimal(n)
      case Str(s) => Ascii("\"") + Escaped(s) + Ascii("\"")
      case _ => []
  {
    hide Decimal, Escaped;
    Punctuation();
  }

  lemma Punctuation()
    ensures [QUOTE] == Ascii("\"") && [COMMA] == Ascii(",") && [COLON] == Ascii(":") && [MINUS] == Ascii("-")
    ensures [LBRACKET] == Ascii("[") && [RBRACKET] == Ascii("]") && [LBRACE] == Ascii("{") && [RBRACE] == Ascii("}")
  {
  }

  lemma {:induction false} JoinAppend(texts: seq<Chars>, t: Chars)
    ensures Join(texts + [t]) == if texts == [] then t else Join(texts) + Ascii(",") + t
  {
    Punctuation();
    if texts == [] {
      assert texts + [t] == [t];
    } else {
      assert (texts + [t])[1..] == texts[1..] + [t];
      JoinAppend(texts[1..], t);
    }
  }

  /** What stands between the brackets of an array or an object. */
  function Inner(text: Chars): Chars
    requires |text| >= 2
  {
    text[1..|text| - 1]
  }

  /** An array is its elements in order, separated by commas; an undefined one is empty. */
  lemma {:induction false} ArrayText(items: seq<Value>, x: Value)
    ensures |StableStringify(Arr(items))| >= 2
    ensures StableStringify(Arr(items + [x]))
      == Ascii("[") + (if items == [] then [] else Inner(StableStringify(Arr(items))) + Ascii(","))
        + (if x.Undefined? then [] else StableStringify(x)) + Ascii("]")
  {
    hide StableStringify, ElementTexts, Join, Ascii, Inner;
    ArrayElements(items);
    ArrayElements(items + [x]);
    MoreElements(items, x);
    JoinAppend(ElementTexts(items), ElementText(x));
  }

  lemma ArrayElements(items: seq<Value>)
    ensures StableStringify(Arr(items)) == Ascii("[") + Join(ElementTexts(items)) + Ascii("]")
    ensures |StableStringify(Arr(items))| >= 2 && Inner(StableStringify(Arr(items))) == Join(ElementTexts(items))
  {
    hide StableStringify, Join;
    TextOfContainer(Arr(items));
    Punctuation();
    InnerOf(LBRACKET, Join(ElementTexts(items)), RBRACKET);
  }

  lemma MoreElements(items: seq<Value>, x: Value)
    ensures ElementTexts(items + [x]) == ElementTexts(items) + [ElementText(x)]
    ensures items == [] <==> ElementTexts(items) == []
  {
  }

  lemma EmptyArrayText()
    ensures StableStringify(Arr([])) == Ascii("[]")
  {
    ArrayElements([]);
    assert Ascii("[") + [] + Ascii("]") == Ascii("[]");
  }

  lemma InnerOf(open: Unit, text: Chars, close: Unit)
    ensures Inner([open] + text + [close]) == text
  {
  }

  /** An object is its members in order of keys, separated by commas. */
  lemma {:induction false} ObjectText(es: seq<(Chars, Value)>, k: Chars, x: Value)
    requires SortEntries(es) == es && SortEntries(es + [(k, x)]) == es + [(k, x)]
    ensures |StableStringify(Obj(es))| >= 2
    ensures StableStringify(Obj(es + [(k, x)]))
      == Ascii("{") + (if es == [] then [] else Inner(StableStringify(Obj(es))) + Ascii(","))
        + (StableStringify(Str(k)) + Ascii(":") + StableStringify(x)) + Ascii("}")
  {
    hide StableStringify, SortEntries, MemberText, Join, MemberTexts, Ascii, Inner;
    ObjectMembers(es);
    ObjectMembers(es + [(k, x)]);
    MoreMembers(es, (k, x));
    JoinAppend(MemberTexts(es), MemberText((k, x)));
    MemberIs(k, x);
  }

  lemma MoreMembers(es: seq<(Chars, Value)>, e: (Chars, Value))
    ensures MemberTexts(es + [e]) == MemberTexts(es) + [MemberText(e)] && (es == [] <==> MemberTexts(es) == [])
  {
  }

  lemma EmptyObjectText()
    ensures StableStringify(Obj([])) == Ascii("{}")
  {
    ObjectMembers([]);
    assert Ascii("{") + [] + Ascii("}") == Ascii("{}");
  }

  lemma {:induction false} ObjectMembers(es: seq<(Chars, Value)>)
    requires SortEntries(es) == es
    ensures StableStringify(Obj(es)) == Ascii("{") + Join(MemberTexts(es)) + Ascii("}")
    ensures |StableStringify(Obj(es))| >= 2 && Inner(StableStringify(Obj(es))) == Join(MemberTexts(es))
  {
    hide StableStringify, SortEntries, Join;
    TextOfContainer(Obj(es));
    Punctuation();
    InnerOf(LBRACE, Join(MemberTexts(es)), RBRACE);
  }

  lemma {:induction false} MemberIs(k: Chars, x: Value)
    ensures MemberText((k, x)) == StableStringify(Str(k)) + Ascii(":") + StableStringify(x)
  {
    Punctuation();
  }
}
