/**
 UTF-8 coding of UTF-16 text, as Buffer.from(text, "utf8") does it: a surrogate without its
 partner becomes U+FFFD. Text without such surrogates can be read back.
 */
module Utf8 {
  import opened Text
  import opened Encoding
  import opened Json

  function EncodePoint(p: int): (r: seq<Byte>)
    requires 0 <= p < 0x11_0000
    ensures r != []
  {
    if p < 0x80 then [p]
    else if p < 0x800 then [0xC0 + p / 0x40, 0x80 + p % 0x40]
    else if p < 0x1_0000 then [0xE0 + p / 0x1000, 0x80 + p / 0x40 % 0x40, 0x80 + p % 0x40]
    else [0xF0 + p / 0x4_0000, 0x80 + p / 0x1000 % 0x40, 0x80 + p / 0x40 % 0x40, 0x80 + p % 0x40]
  }

  function PairPoint(high: Unit, low: Unit): int {
    0x1_0000 + (high - 0xD800) * 0x400 + (low - 0xDC00)
  }

  function ToUtf8(s: Chars): seq<Byte> {
    if s == [] then []
    else if StartsPair(s) then EncodePoint(PairPoint(s[0], s[1])) + ToUtf8(s[2..])
    else if IsHigh(s[0]) || IsLow(s[0]) then EncodePoint(0xFFFD) + ToUtf8(s[1..])
    else EncodePoint(s[0]) + ToUtf8(s[1..])
  }

  /** Every surrogate of the text has its partner. */
  predicate WellPaired(s: Chars) {
    s == [] ||
    if StartsPair(s) then WellPaired(s[2..]) else !IsHigh(s[0]) && !IsLow(s[0]) && WellPaired(s[1..])
  }

  /** The code point at the start of coded text, and the number of its bytes. */
  function DecodePoint(b: seq<Byte>): (int, nat)
    requires b != []
  {
    var a: int := b[0];
    if a < 0x80 then (a, 1)
    else if a < 0xE0 && |b| > 1 then (0x40 * (a - 0xC0) + Tail(b[1]), 2)
    else if a < 0xF0 && |b| > 2 then (0x1000 * (a - 0xE0) + 0x40 * Tail(b[1]) + Tail(b[2]), 3)
    else if |b| > 3 then (0x4_0000 * (a - 0xF0) + 0x1000 * Tail(b[1]) + 0x40 * Tail(b[2]) + Tail(b[3]), 4)
    else (0, 1)
  }

  /** The payload of a continuation byte. */
  function Tail(b: Byte): int {
    var a: int := b;
    a - 0x80
  }

  function Units(p: int): Chars {
    if 0 <= p < 0x1_0000 then [p]
    else if 0x1_0000 <= p < 0x11_0000 then [0xD800 + (p - 0x1_0000) / 0x400, 0xDC00 + (p - 0x1_0000) % 0x400]
    else []
  }

  function Decode(b: seq<Byte>): Chars {
    if b == [] then [] else
      var (p, n) := DecodePoint(b);
      Units(p) + (if n <= |b| then Decode(b[n..]) else [])
  }

  lemma PointRoundTrip(p: int, rest: seq<Byte>)
    requires 0 <= p < 0x11_0000
    ensures DecodePoint(EncodePoint(p) + rest) == (p, |EncodePoint(p)|)
  {
    assert p / 0x1000 == p / 0x40 / 0x40 && p / 0x4_0000 == p / 0x1000 / 0x40;
    var b := EncodePoint(p) + rest;
    assert forall i :: 0 <= i < |EncodePoint(p)| ==> b[i] == EncodePoint(p)[i];
  }

  lemma {:induction false} DecodeFirst(p: int, rest: seq<Byte>)
    requires 0 <= p < 0x11_0000
    ensures Decode(EncodePoint(p) + rest) == Units(p) + Decode(rest)
  {
    hide EncodePoint, DecodePoint, Units;
    var b := EncodePoint(p) + rest;
    PointRoundTrip(p, rest);
    assert b[|EncodePoint(p)|..] == rest;
  }

  lemma PairUnits(high: Unit, low: Unit)
    requires IsHigh(high) && IsLow(low)
    ensures 0x1_0000 <= PairPoint(high, low) < 0x11_0000 && Units(PairPoint(high, low)) == [high, low]
  {
  }

  /** Well-paired text is recovered from its UTF-8 bytes. */
  lemma {:induction false} Utf8RoundTrip(s: Chars)
    requires WellPaired(s)
    ensures Decode(ToUtf8(s)) == s
  {
    hide EncodePoint, PairPoint, Decode;
    if s == [] {
      DecodeNothing();
    } else if StartsPair(s) {
      PairUnits(s[0], s[1]);
      DecodeFirst(PairPoint(s[0], s[1]), ToUtf8(s[2..]));
      Utf8RoundTrip(s[2..]);
    } else {
      DecodeFirst(s[0], ToUtf8(s[1..]));
      Utf8RoundTrip(s[1..]);
    }
  }

  lemma DecodeNothing()
    ensures Decode([]) == []
  {
  }

  // ----- The canonical text is well paired -----

  lemma {:induction false} PairedAppend(a: Chars, b: Chars)
    requires WellPaired(a) && WellPaired(b)
    ensures WellPaired(a + b)
  {
    if a == [] {
      assert a + b == b;
    } else if StartsPair(a) {
      assert (a + b)[2..] == a[2..] + b;
      PairedAppend(a[2..], b);
    } else {
      assert (a + b)[1..] == a[1..] + b;
      PairedAppend(a[1..], b);
    }
  }

  lemma {:induction false} PlainPaired(s: Chars)
    requires forall i :: 0 <= i < |s| ==> !IsHigh(s[i]) && !IsLow(s[i])
    ensures WellPaired(s)
  {
    if s != [] { PlainPaired(s[1..]); }
  }

  lemma StartPaired(s: Chars)
    requires s != []
    ensures WellPaired(EscapedStart(s))
  {
    if StartsPair(s) {
      assert s[..2][2..] == [];
    } else {
      PlainPaired(EscapedUnit(s[0], IsHigh(s[0]) || IsLow(s[0])));
    }
  }

  lemma {:induction false} EscapedPaired(s: Chars)
    ensures WellPaired(Escaped(s))
  {
    hide EscapedStart, WellPaired;
    if s == [] {
      PlainPaired([]);
    } else {
      var t := s[(if StartsPair(s) then 2 else 1)..];
      StartPaired(s);
      EscapedPaired(t);
      PairedAppend(EscapedStart(s), Escaped(t));
    }
  }

  lemma {:induction false} Enclosed(open: Unit, s: Chars, close: Unit)
    requires open < 0xD800 && close < 0xD800 && WellPaired(s)
    ensures WellPaired([open] + s + [close])
  {
    hide WellPaired;
    PlainPaired([open]);
    PlainPaired([close]);
    PairedAppend([open], s);
    PairedAppend([open] + s, [close]);
  }

  lemma {:induction false} JoinPaired(texts: seq<Chars>)
    requires forall i :: 0 <= i < |texts| ==> WellPaired(texts[i])
    ensures WellPaired(Join(texts))
  {
    hide WellPaired;
    if texts == [] {
      PlainPaired([]);
    } else if |texts| > 1 {
      JoinPaired(texts[1..]);
      PlainPaired([COMMA]);
      PairedAppend(texts[0], [COMMA]);
      PairedAppend(texts[0] + [COMMA], Join(texts[1..]));
    }
  }

  lemma QuotedPaired(s: Chars)
    ensures WellPaired(Quoted(s))
  {
    hide WellPaired;
    EscapedPaired(s);
    Enclosed(QUOTE, Escaped(s), QUOTE);
  }

  /** JSON text has no surrogate without its partner, whatever its strings contain. */
  lemma {:induction false} TextPaired(v: Value)
    ensures WellPaired(StableStringify(v))
  {
    hide WellPaired, StableStringify;
    TextOfContainer(v);
    match v
    case Arr(items) =>
      var texts := ElementTexts(items);
      forall i | 0 <= i < |texts| ensures WellPaired(texts[i]) {
        PlainPaired([]);
        TextPaired(items[i]);
      }
      JoinPaired(texts);
      Enclosed(LBRACKET, Join(texts), RBRACKET);
    case Obj(entries) =>
      var texts := MemberTexts(SortEntries(entries));
      forall i | 0 <= i < |texts| ensures WellPaired(texts[i]) {
        var e := SortEntries(entries)[i];
        assert e in entries;
        TextPaired(e.1);
        QuotedPaired(e.0);
        PlainPaired([COLON]);
        PairedAppend(Quoted(e.0), [COLON]);
        PairedAppend(Quoted(e.0) + [COLON], StableStringify(e.1));
      }
      JoinPaired(texts);
      Enclosed(LBRACE, Join(texts), RBRACE);
    case _ =>
      ScalarPaired(v);
  }

  lemma {:induction false} ScalarPaired(v: Value)
    requires !v.Arr? && !v.Obj?
    ensures WellPaired(StableStringify(v))
  {
    if v.Str? { QuotedPaired(v.s); } else { PlainPaired(StableStringify(v)); }
  }

  /** Two values have the same UTF-8 text exactly when they have the same text. */
  lemma {:induction false} BytesIffText(v: Value, w: Value)
    ensures ToUtf8(StableStringify(v)) == ToUtf8(StableStringify(w)) <==> StableStringify(v) == StableStringify(w)
  {
    TextPaired(v);
    TextPaired(w);
    Utf8RoundTrip(StableStringify(v));
    Utf8RoundTrip(StableStringify(w));
  }

  // ----- The bytes of a code point -----

  /** A byte of the form 10xxxxxx. */
  predicate Continues(b: int) {
    0x80 <= b < 0xC0
  }

  /** The layout of section 3 of RFC 3629: the leading bits tell the length, the others spell the code point. */
  lemma PointLayout(p: int)
    requires 0 <= p < 0x11_0000
    ensures var r: seq<int> := EncodePoint(p);
      if p < 0x80 then r == [p]
      else if p < 0x800 then
        |r| == 2 && 0xC0 <= r[0] < 0xE0 && Continues(r[1]) && p == 0x40 * (r[0] - 0xC0) + (r[1] - 0x80)
      else if p < 0x1_0000 then
        && |r| == 3 && 0xE0 <= r[0] < 0xF0 && Continues(r[1]) && Continues(r[2])
        && p == 0x1000 * (r[0] - 0xE0) + 0x40 * (r[1] - 0x80) + (r[2] - 0x80)
      else
        && |r| == 4 && 0xF0 <= r[0] < 0xF8 && Continues(r[1]) && Continues(r[2]) && Continues(r[3])
        && p == 0x4_0000 * (r[0] - 0xF0) + 0x1000 * (r[1] - 0x80) + 0x40 * (r[2] - 0x80) + (r[3] - 0x80)
  {
    assert p / 0x1000 == p / 0x40 / 0x40 && p / 0x4_0000 == p / 0x1000 / 0x40;
  }

  /** ASCII is its own coding. */
  lemma {:induction false} AsciiIsUtf8(s: Chars)
    requires forall i :: 0 <= i < |s| ==> s[i] < 0x80
    ensures |ToUtf8(s)| == |s| && forall i :: 0 <= i < |s| ==> ToUtf8(s)[i] == s[i]
  {
    if s != [] { AsciiIsUtf8(s[1..]); }
  }

  /** A surrogate pair stands for a point beyond 0xFFFF, and a lone surrogate is replaced by U+FFFD. */
  lemma SurrogateBytes(high: Unit, low: Unit)
    requires 0xD800 <= high < 0xDC00 <= low < 0xE000
    ensures ToUtf8([high, low]) == EncodePoint(0x1_0000 + 0x400 * (high - 0xD800) + (low - 0xDC00))
    ensures ToUtf8([high]) == ToUtf8([low]) == [0xEF, 0xBF, 0xBD]
  {
    assert [high, low][2..] == [] && [high][1..] == [] && [low][1..] == [];
    assert EncodePoint(0xFFFD) == [0xEF, 0xBF, 0xBD];
  }
}
