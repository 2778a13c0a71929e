/**
 Signed routing packets (lib/nz-crypto-routing.js, lines 27 to 130). The clock, the nonce and the
 signature scheme are parameters.
 */
module Routing {
  import opened Results
  import opened Text
  import opened Encoding
  import opened Json
  import opened KeyOrder
  import opened Utf8

  /** A property of an object; undefined when it is absent or the value is no object. */
  function Property(v: Value, name: Chars): Value {
    if v.Obj? then Find(v.entries, name) else Undefined
  }

  function Find(es: seq<(Chars, Value)>, name: Chars): Value {
    if es == [] then Undefined else if es[0].0 == name then es[0].1 else Find(es[1..], name)
  }

  /** The fields that are signed. */
  datatype Field = Version | NodeId | Ts | Nonce | Payload

  function Name(f: Field): Chars {
    match f
    case Version => Ascii("version")
    case NodeId => Ascii("node_id")
    case Ts => Ascii("ts")
    case Nonce => Ascii("nonce")
    case Payload => Ascii("payload")
  }

  const FIELDS: seq<Field> := [Version, NodeId, Ts, Nonce, Payload]

  function SignedEntries(packet: Value): seq<(Chars, Value)> {
    seq(|FIELDS|, i requires 0 <= i < |FIELDS| => (Name(FIELDS[i]), Property(packet, Name(FIELDS[i]))))
  }

  function Signed(packet: Value): Value {
    Obj(SignedEntries(packet))
  }

  function BuildSigningPayload(packet: Value): seq<Byte> {
    ToUtf8(StableStringify(Signed(packet)))
  }

  // ----- What the payload determines -----

  lemma NamesDiffer(f: Field, g: Field)
    requires f != g
    ensures Name(f) != Name(g)
  {
    assert |Name(Version)| == 7 && |Name(NodeId)| == 7 && |Name(Ts)| == 2 && |Name(Nonce)| == 5 && |Name(Payload)| == 7;
    assert Name(Version)[0] == 118 && Name(NodeId)[0] == 110 && Name(Payload)[0] == 112;
  }

  lemma {:induction false} FindWellFormed(es: seq<(Chars, Value)>, name: Chars)
    requires forall e :: e in es ==> WellFormed(e.1)
    ensures WellFormed(Find(es, name))
  {
    if es != [] {
      assert es[0] in es;
      FindWellFormed(es[1..], name);
    }
  }

  lemma {:induction false} SignedWellFormed(packet: Value)
    requires WellFormed(packet)
    ensures WellFormed(Signed(packet))
  {
    hide Name;
    var es := SignedEntries(packet);
    forall e | e in es ensures WellFormed(e.1) {
      if packet.Obj? { FindWellFormed(packet.entries, e.0); }
    }
    forall i, j | 0 <= i < j < |es| ensures es[i].0 != es[j].0 {
      NamesDiffer(FIELDS[i], FIELDS[j]);
    }
  }

  ghost predicate SameFields(p: Value, q: Value) {
    forall f: Field :: Same(Property(p, Name(f)), Property(q, Name(f)))
  }

  lemma FieldEntry(p: Value, f: Field) returns (i: nat)
    ensures i < |SignedEntries(p)| && SignedEntries(p)[i] == (Name(f), Property(p, Name(f)))
  {
    i := match f case Version => 0 case NodeId => 1 case Ts => 2 case Nonce => 3 case Payload => 4;
  }

  lemma EntryField(p: Value, e: (Chars, Value)) returns (f: Field)
    requires e in SignedEntries(p)
    ensures e == (Name(f), Property(p, Name(f)))
  {
    hide Name, Property;
    var i :| 0 <= i < |FIELDS| && SignedEntries(p)[i] == e;
    f := FIELDS[i];
  }

  lemma SignedThenFields(p: Value, q: Value, f: Field)
    requires Same(Signed(p), Signed(q))
    ensures Same(Property(p, Name(f)), Property(q, Name(f)))
  {
    hide Name, Property, Same, SignedEntries;
    var a, b := SignedEntries(p), SignedEntries(q);
    SameObjects(a, b);
    var i := FieldEntry(p, f);
    var d := a[i];
    assert d in a && Partner(d, b);
    var e :| e in b && e.0 == d.0 && Same(d.1, e.1);
    var g := EntryField(q, e);
    if g != f { NamesDiffer(g, f); }
  }

  lemma FieldsThenSigned(p: Value, q: Value)
    requires SameFields(p, q)
    ensures Same(Signed(p), Signed(q))
  {
    hide Name, Property, Same;
    var a, b := SignedEntries(p), SignedEntries(q);
    SameObjects(a, b);
    forall e | e in a ensures Partner(e, b) {
      var i :| 0 <= i < |a| && a[i] == e;
      assert b[i] in b && b[i].0 == e.0 && Same(e.1, b[i].1);
    }
    forall e | e in b ensures HasKey(a, e.0) {
      var i :| 0 <= i < |b| && b[i] == e;
      assert a[i] in a;
    }
  }

  lemma SignedSame(p: Value, q: Value)
    ensures Same(Signed(p), Signed(q)) <==> SameFields(p, q)
  {
    hide Name, Property, Same, Signed;
    if Same(Signed(p), Signed(q)) {
      forall f: Field ensures Same(Property(p, Name(f)), Property(q, Name(f))) {
        SignedThenFields(p, q, f);
      }
    }
    if SameFields(p, q) {
      FieldsThenSigned(p, q);
    }
  }

  /**
   Two packets have equal signing payloads exactly when version, node_id, ts, nonce and payload agree
   up to key order at every depth; no other property matters.
   */
  lemma {:induction false} SigningPayloadIffSameFields(p: Value, q: Value)
    requires WellFormed(p) && WellFormed(q)
    ensures BuildSigningPayload(p) == BuildSigningPayload(q) <==> SameFields(p, q)
  {
    hide StableStringify, Same, Signed, ToUtf8, SameFields, WellFormed;
    SignedWellFormed(p);
    SignedWellFormed(q);
    BytesIffText(Signed(p), Signed(q));
    TextIffSame(Signed(p), Signed(q));
    SignedSame(p, q);
  }

  // ----- The text that is signed -----

  lemma {:induction false} PlainText(s: Chars)
    requires forall i :: 0 <= i < |s| ==> 0x20 <= s[i] < 0x80 && s[i] != QUOTE && s[i] != BACKSLASH
    ensures Escaped(s) == s
  {
    if s != [] {
      PlainText(s[1..]);
      assert s == [s[0]] + s[1..];
    }
  }

  lemma QuotedName(f: Field)
    ensures Quoted(Name(f)) == match f
      case Version => Ascii("\"version\"")
      case NodeId => Ascii("\"node_id\"")
      case Ts => Ascii("\"ts\"")
      case Nonce => Ascii("\"nonce\"")
      case Payload => Ascii("\"payload\"")
  {
    hide Escaped, Ascii;
    NamePlain(f);
    QuotedLiterals();
    PlainText(Name(f));
  }

  lemma NamePlain(f: Field)
    ensures forall i :: 0 <= i < |Name(f)| ==> 0x20 <= Name(f)[i] < 0x80 && Name(f)[i] != QUOTE && Name(f)[i] != BACKSLASH
  {
  }

  lemma QuotedLiterals()
    ensures Ascii("\"version\"") == [QUOTE] + Ascii("version") + [QUOTE]
    ensures Ascii("\"node_id\"") == [QUOTE] + Ascii("node_id") + [QUOTE]
    ensures Ascii("\"ts\"") == [QUOTE] + Ascii("ts") + [QUOTE]
    ensures Ascii("\"nonce\"") == [QUOTE] + Ascii("nonce") + [QUOTE]
    ensures Ascii("\"payload\"") == [QUOTE] + Ascii("payload") + [QUOTE]
  {
  }

  /** The names in ascending order: node_id, nonce, payload, ts, version. */
  lemma NameOrder()
    ensures Less(Name(NodeId), Name(Nonce)) && Less(Name(Nonce), Name(Payload))
    ensures Less(Name(Payload), Name(Ts)) && Less(Name(Ts), Name(Version))
    ensures Less(Name(Nonce), Name(Ts))
  {
    assert Name(NodeId)[..2] == Name(Nonce)[..2] && Name(NodeId)[2] == 100 && Name(Nonce)[2] == 110;
    BeforeIsLess(Name(NodeId), Name(Nonce), 2);
    BeforeIsLess(Name(Nonce), Name(Payload), 0);
    BeforeIsLess(Name(Payload), Name(Ts), 0);
    BeforeIsLess(Name(Ts), Name(Version), 0);
    BeforeIsLess(Name(Nonce), Name(Ts), 0);
  }

  function Entry(p: Value, f: Field): (Chars, Value) {
    (Name(f), Property(p, Name(f)))
  }

  lemma {:induction false} InsertInFront(es: seq<(Chars, Value)>, e: (Chars, Value))
    requires es != [] ==> Less(e.0, es[0].0)
    ensures InsertEntry(es, e) == [e] + es
  {
  }

  lemma {:induction false} InsertBehind(d: (Chars, Value), es: seq<(Chars, Value)>, e: (Chars, Value))
    requires Less(d.0, e.0)
    ensures InsertEntry([d] + es, e) == [d] + InsertEntry(es, e)
  {
    LessOrder(d.0, e.0);
    assert ([d] + es)[1..] == es;
  }

  lemma {:induction false} SortStep(e: (Chars, Value), es: seq<(Chars, Value)>)
    ensures SortEntries([e] + es) == InsertEntry(SortEntries(es), e)
  {
    assert ([e] + es)[1..] == es;
  }

  lemma SortedFields(p: Value)
    ensures SortEntries(SignedEntries(p))
      == [Entry(p, NodeId)] + ([Entry(p, Nonce)] + ([Entry(p, Payload)] + ([Entry(p, Ts)] + [Entry(p, Version)])))
  {
    var v, d, t, n, l := Entry(p, Version), Entry(p, NodeId), Entry(p, Ts), Entry(p, Nonce), Entry(p, Payload);
    NameOrder();
    assert SignedEntries(p) == [v] + ([d] + ([t] + ([n] + ([l] + []))));
    hide Less, Name, Property, InsertEntry, SortEntries, SignedEntries, Entry;
    SortStep(v, [d] + ([t] + ([n] + ([l] + []))));
    SortStep(d, [t] + ([n] + ([l] + [])));
    SortStep(t, [n] + ([l] + []));
    SortStep(n, [l] + []);
    SortStep(l, []);
    SortAll(v, d, t, n, l);
  }

  lemma {:induction false} SortAll(v: (Chars, Value), d: (Chars, Value), t: (Chars, Value), n: (Chars, Value),
                                   l: (Chars, Value))
    requires Less(d.0, n.0) && Less(n.0, l.0) && Less(l.0, t.0) && Less(t.0, v.0)
    ensures InsertEntry(InsertEntry(InsertEntry(InsertEntry(InsertEntry(SortEntries([]), l), n), t), d), v)
      == [d] + ([n] + ([l] + ([t] + [v])))
  {
    LessTransitive(n.0, l.0, t.0);
    LessTransitive(d.0, n.0, t.0);
    LessTransitive(l.0, t.0, v.0);
    LessTransitive(n.0, t.0, v.0);
    LessTransitive(d.0, t.0, v.0);
    assert SortEntries([]) == [];
    hide Less, SortEntries;
    InsertInFront([], l);
    InsertInFront([l] + [], n);
    InsertInFront([], t);
    InsertBehind(l, [], t);
    InsertBehind(n, [l] + [], t);
    InsertInFront([n] + ([l] + [t]), d);
    InsertInFront([], v);
    InsertBehind(t, [], v);
    InsertBehind(l, [t], v);
    InsertBehind(n, [l] + [t], v);
    InsertBehind(d, [n] + ([l] + [t]), v);
    hide InsertEntry;
    assert [l] + [] == [l] && [t] + [] == [t] && [v] + [] == [v];
  }

  function FieldText(p: Value, f: Field): Chars {
    StableStringify(Property(p, Name(f)))
  }

  /** The bytes that are signed: the five fields under their names, in ascending order. */
  lemma SigningPayloadText(p: Value)
    ensures BuildSigningPayload(p) == ToUtf8(
      Ascii("{\"node_id\":") + (StableStringify(Property(p, Ascii("node_id")))
      + (Ascii(",\"nonce\":") + (StableStringify(Property(p, Ascii("nonce")))
      + (Ascii(",\"payload\":") + (StableStringify(Property(p, Ascii("payload")))
      + (Ascii(",\"ts\":") + (StableStringify(Property(p, Ascii("ts")))
      + (Ascii(",\"version\":") + (StableStringify(Property(p, Ascii("version"))) + Ascii("}")))))))))))
  {
    TextOfContainer(Signed(p));
    SortedFields(p);
    FiveMembers(Entry(p, NodeId), Entry(p, Nonce), Entry(p, Payload), Entry(p, Ts), Entry(p, Version));
    QuotedName(NodeId);
    QuotedName(Nonce);
    QuotedName(Payload);
    QuotedName(Ts);
    QuotedName(Version);
    hide StableStringify, Property, ToUtf8, SortEntries, Escaped, Join, Ascii, Quoted;
    Spell(FieldText(p, NodeId), FieldText(p, Nonce), FieldText(p, Payload), FieldText(p, Ts), FieldText(p, Version));
  }

  lemma FiveMembers(a: (Chars, Value), b: (Chars, Value), c: (Chars, Value), d: (Chars, Value), e: (Chars, Value))
    ensures Join(MemberTexts([a] + ([b] + ([c] + ([d] + [e])))))
      == MemberText(a) + [COMMA] + (MemberText(b) + [COMMA] + (MemberText(c) + [COMMA] + (MemberText(d) + [COMMA] + MemberText(e))))
  {
    hide MemberText;
    NextMember(a, [b] + ([c] + ([d] + [e])));
    NextMember(b, [c] + ([d] + [e]));
    NextMember(c, [d] + [e]);
    NextMember(d, [e]);
    assert MemberTexts([e]) == [MemberText(e)];
  }

  lemma NextMember(e: (Chars, Value), es: seq<(Chars, Value)>)
    requires es != []
    ensures Join(MemberTexts([e] + es)) == MemberText(e) + [COMMA] + Join(MemberTexts(es))
  {
    hide MemberText;
    assert MemberTexts([e] + es)[1..] == MemberTexts(es);
  }

  lemma Literals()
    ensures Ascii("{\"node_id\":") == [LBRACE] + Ascii("\"node_id\"") + [COLON]
    ensures Ascii(",\"nonce\":") == [COMMA] + Ascii("\"nonce\"") + [COLON]
    ensures Ascii(",\"payload\":") == [COMMA] + Ascii("\"payload\"") + [COLON]
  {
  }

  lemma MoreLiterals()
    ensures Ascii(",\"ts\":") == [COMMA] + Ascii("\"ts\"") + [COLON]
    ensures Ascii(",\"version\":") == [COMMA] + Ascii("\"version\"") + [COLON]
    ensures Ascii("}") == [RBRACE]
  {
  }

  /** One member and what follows it. */
  lemma Link(open: Unit, name: Chars, text: Chars, rest: Chars)
    ensures [open] + (name + [COLON] + text + [COMMA] + rest) + [RBRACE]
      == ([open] + name + [COLON]) + (text + ([COMMA] + rest + [RBRACE]))
  {
  }

  lemma LastLink(name: Chars, text: Chars)
    ensures [COMMA] + (name + [COLON] + text) + [RBRACE] == ([COMMA] + name + [COLON]) + (text + [RBRACE])
  {
  }

  /** The punctuation around five texts. */
  lemma Spell(d: Chars, n: Chars, l: Chars, t: Chars, v: Chars)
    ensures [LBRACE] + ((Ascii("\"node_id\"") + [COLON] + d) + [COMMA] + ((Ascii("\"nonce\"") + [COLON] + n) + [COMMA]
        + ((Ascii("\"payload\"") + [COLON] + l) + [COMMA] + ((Ascii("\"ts\"") + [COLON] + t) + [COMMA]
        + (Ascii("\"version\"") + [COLON] + v))))) + [RBRACE]
      == Ascii("{\"node_id\":") + (d + (Ascii(",\"nonce\":") + (n + (Ascii(",\"payload\":") + (l
        + (Ascii(",\"ts\":") + (t + (Ascii(",\"version\":") + (v + Ascii("}"))))))))))
  {
    Literals();
    MoreLiterals();
    hide Ascii;
    var e := Ascii("\"version\"") + [COLON] + v;
    var c := (Ascii("\"ts\"") + [COLON] + t) + [COMMA] + e;
    var b := (Ascii("\"payload\"") + [COLON] + l) + [COMMA] + c;
    var a := (Ascii("\"nonce\"") + [COLON] + n) + [COMMA] + b;
    LastLink(Ascii("\"version\""), v);
    Link(COMMA, Ascii("\"ts\""), t, e);
    Link(COMMA, Ascii("\"payload\""), l, c);
    Link(COMMA, Ascii("\"nonce\""), n, b);
    Link(LBRACE, Ascii("\"node_id\""), d, a);
  }

  // ----- Signing and verification -----

  datatype Scheme = Scheme(
    sign: (seq<Byte>, seq<Byte>) -> seq<Byte>,
    verify: (seq<Byte>, seq<Byte>, seq<Byte>) -> bool,
    toBase64: seq<Byte> -> Chars,
    fromBase64: Chars -> seq<Byte>)

  datatype Verdict = Accepted(nodeId: Chars, payload: Value) | Rejected(reason: string)

  function VersionText(): Chars {
    Ascii("nz-routing-crypto-01")
  }

  function Unsigned(nodeId: Chars, ts: int, nonce: Chars, payload: Value): Value {
    Obj([(Name(Version), Str(VersionText())), (Name(NodeId), Str(nodeId)), (Name(Ts), Num(ts)),
         (Name(Nonce), Str(nonce)), (Name(Payload), payload)])
  }

  function SignPacket(c: Scheme, key: seq<Byte>, nodeId: Chars, ts: int, nonce: Chars, payload: Value): Value {
    var packet := Unsigned(nodeId, ts, nonce, payload);
    var signature := c.toBase64(c.sign(BuildSigningPayload(packet), key));
    Obj(packet.entries + [(Ascii("signature"), Str(signature))])
  }

  predicate NonEmptyString(v: Value) {
    v.Str? && v.s != []
  }

  function Skew(now: int, ts: int): int {
    if now >= ts then now - ts else ts - now
  }

  function VerifyPacket(c: Scheme, packet: Value, keyOf: Chars -> Option<seq<Byte>>, now: int, maxSkewSec: int): Verdict {
    var nodeId, ts := Property(packet, Name(NodeId)), Property(packet, Name(Ts));
    var nonce, signature := Property(packet, Name(Nonce)), Property(packet, Ascii("signature"));
    if Property(packet, Name(Version)) != Str(VersionText()) then Rejected("unsupported-version")
    else if !NonEmptyString(nodeId) then Rejected("missing-node-id")
    else if !ts.Num? then Rejected("invalid-ts")
    else if !NonEmptyString(nonce) then Rejected("invalid-nonce")
    else if !NonEmptyString(signature) then Rejected("missing-signature")
    else if Skew(now, ts.n) > maxSkewSec * 1000 then Rejected("ts-skew")
    else if keyOf(nodeId.s).None? then Rejected("unknown-node")
    else if !c.verify(BuildSigningPayload(packet), keyOf(nodeId.s).value, c.fromBase64(signature.s)) then
      Rejected("invalid-signature")
    else Accepted(nodeId.s, Property(packet, Name(Payload)))
  }

  /** A packet is accepted, as from this node and with this payload, if and only if it passes every check. */
  lemma AcceptedIffAllChecksPass(c: Scheme, packet: Value, keyOf: Chars -> Option<seq<Byte>>, now: int, maxSkewSec: int,
                                 nodeId: Chars, payload: Value)
    ensures VerifyPacket(c, packet, keyOf, now, maxSkewSec) == Accepted(nodeId, payload) <==>
      && Property(packet, Ascii("version")) == Str(Ascii("nz-routing-crypto-01"))
      && Property(packet, Ascii("node_id")) == Str(nodeId) && nodeId != []
      && Property(packet, Ascii("payload")) == payload
      && (exists nonce :: nonce != [] && Property(packet, Ascii("nonce")) == Str(nonce))
      && (exists ts :: now - maxSkewSec * 1000 <= ts <= now + maxSkewSec * 1000 && Property(packet, Ascii("ts")) == Num(ts))
      && keyOf(nodeId).Some?
      && exists s :: s != [] && Property(packet, Ascii("signature")) == Str(s)
           && c.verify(BuildSigningPayload(packet), keyOf(nodeId).value, c.fromBase64(s))
  {
    hide BuildSigningPayload, Find;
  }

  /** Which of the checks a packet passes, each under its name in the answer. */
  ghost function Checks(c: Scheme, packet: Value, keyOf: Chars -> Option<seq<Byte>>, now: int, maxSkewSec: int):
    seq<(bool, string)>
  {
    var node, ts := Property(packet, Ascii("node_id")), Property(packet, Ascii("ts"));
    var nonce, signature := Property(packet, Ascii("nonce")), Property(packet, Ascii("signature"));
    [(Property(packet, Ascii("version")) == Str(Ascii("nz-routing-crypto-01")), "unsupported-version"),
     (node.Str? && node.s != [], "missing-node-id"),
     (ts.Num?, "invalid-ts"),
     (nonce.Str? && nonce.s != [], "invalid-nonce"),
     (signature.Str? && signature.s != [], "missing-signature"),
     (ts.Num? && now - maxSkewSec * 1000 <= ts.n <= now + maxSkewSec * 1000, "ts-skew"),
     (node.Str? && keyOf(node.s).Some?, "unknown-node"),
     (node.Str? && keyOf(node.s).Some? && signature.Str?
       && c.verify(BuildSigningPayload(packet), keyOf(node.s).value, c.fromBase64(signature.s)), "invalid-signature")]
  }

  /** A rejected packet is told the first check it fails. */
  lemma RejectionNamesFirstFailure(c: Scheme, packet: Value, keyOf: Chars -> Option<seq<Byte>>, now: int,
                                   maxSkewSec: int, i: nat)
    requires var checks := Checks(c, packet, keyOf, now, maxSkewSec);
             i < |checks| && !checks[i].0 && forall j :: 0 <= j < i ==> checks[j].0
    ensures VerifyPacket(c, packet, keyOf, now, maxSkewSec)
         == Rejected(Checks(c, packet, keyOf, now, maxSkewSec)[i].1)
  {
    hide BuildSigningPayload, Find;
    var checks := Checks(c, packet, keyOf, now, maxSkewSec);
    assert i > 0 ==> checks[0].0;
    assert i > 1 ==> checks[1].0;
    assert i > 2 ==> checks[2].0;
    assert i > 3 ==> checks[3].0;
    assert i > 4 ==> checks[4].0;
    assert i > 5 ==> checks[5].0;
    assert i > 6 ==> checks[6].0;
  }

  lemma {:induction false} FindSkips(es: seq<(Chars, Value)>, extra: (Chars, Value), name: Chars)
    requires name != extra.0
    ensures Find(es + [extra], name) == Find(es, name)
  {
    if es == [] {
      assert (es + [extra])[1..] == [];
    } else {
      assert (es + [extra])[1..] == es[1..] + [extra];
      FindSkips(es[1..], extra, name);
    }
  }

  lemma {:induction false} FindLast(es: seq<(Chars, Value)>, extra: (Chars, Value))
    requires forall i :: 0 <= i < |es| ==> es[i].0 != extra.0
    ensures Find(es + [extra], extra.0) == extra.1
  {
    if es != [] {
      assert (es + [extra])[1..] == es[1..] + [extra];
      FindLast(es[1..], extra);
    }
  }

  lemma UnsignedProperty(nodeId: Chars, ts: int, nonce: Chars, payload: Value, f: Field)
    ensures Property(Unsigned(nodeId, ts, nonce, payload), Name(f))
         == match f case Version => Str(VersionText()) case NodeId => Str(nodeId) case Ts => Num(ts)
                    case Nonce => Str(nonce) case Payload => payload
  {
    hide Name, Find;
    var es := Unsigned(nodeId, ts, nonce, payload).entries;
    assert es == [es[0]] + ([es[1]] + ([es[2]] + ([es[3]] + ([es[4]] + []))));
    FindStep(es[0], [es[1]] + ([es[2]] + ([es[3]] + ([es[4]] + []))), Name(f));
    FindStep(es[1], [es[2]] + ([es[3]] + ([es[4]] + [])), Name(f));
    FindStep(es[2], [es[3]] + ([es[4]] + []), Name(f));
    FindStep(es[3], [es[4]] + [], Name(f));
    FindStep(es[4], [], Name(f));
    if f != Version { NamesDiffer(f, Version); }
    if f != NodeId { NamesDiffer(f, NodeId); }
    if f != Ts { NamesDiffer(f, Ts); }
    if f != Nonce { NamesDiffer(f, Nonce); }
    if f != Payload { NamesDiffer(f, Payload); }
  }

  lemma {:induction false} FindStep(e: (Chars, Value), rest: seq<(Chars, Value)>, name: Chars)
    ensures Find([e] + rest, name) == if e.0 == name then e.1 else Find(rest, name)
  {
    assert ([e] + rest)[1..] == rest;
  }

  lemma SignatureName(f: Field)
    ensures Name(f) != Ascii("signature")
  {
    assert |Name(f)| <= 7;
  }

  /** Adding the signature changes none of the signed fields. */
  lemma SignedFieldsKept(p: Value, signature: Value, f: Field)
    requires p.Obj?
    ensures Property(Obj(p.entries + [(Ascii("signature"), signature)]), Name(f)) == Property(p, Name(f))
  {
    hide Name;
    SignatureName(f);
    FindSkips(p.entries, (Ascii("signature"), signature), Name(f));
  }

  /** A packet just signed by a known node is accepted within the allowed skew, with its payload. */
  lemma SignedPacketAccepted(c: Scheme, key: seq<Byte>, publicKey: seq<Byte>, nodeId: Chars, ts: int, nonce: Chars,
                             payload: Value, keyOf: Chars -> Option<seq<Byte>>, now: int, maxSkewSec: int)
    requires nodeId != [] && nonce != [] && Skew(now, ts) <= maxSkewSec * 1000 && keyOf(nodeId) == Some(publicKey)
    requires var m := BuildSigningPayload(Unsigned(nodeId, ts, nonce, payload));
             c.toBase64(c.sign(m, key)) != [] && c.verify(m, publicKey, c.fromBase64(c.toBase64(c.sign(m, key))))
    ensures VerifyPacket(c, SignPacket(c, key, nodeId, ts, nonce, payload), keyOf, now, maxSkewSec)
         == Accepted(nodeId, payload)
  {
    hide Name, StableStringify, ToUtf8;
    var p := Unsigned(nodeId, ts, nonce, payload);
    var signature := Str(c.toBase64(c.sign(BuildSigningPayload(p), key)));
    var q := SignPacket(c, key, nodeId, ts, nonce, payload);
    assert q == Obj(p.entries + [(Ascii("signature"), signature)]);
    forall f: Field ensures Property(q, Name(f)) == Property(p, Name(f)) {
      SignedFieldsKept(p, signature, f);
    }
    UnsignedProperty(nodeId, ts, nonce, payload, Version);
    UnsignedProperty(nodeId, ts, nonce, payload, NodeId);
    UnsignedProperty(nodeId, ts, nonce, payload, Ts);
    UnsignedProperty(nodeId, ts, nonce, payload, Nonce);
    UnsignedProperty(nodeId, ts, nonce, payload, Payload);
    assert Signed(q) == Signed(p);
    forall i | 0 <= i < |p.entries| ensures p.entries[i].0 != Ascii("signature") {
      SignatureName(FIELDS[i]);
    }
    FindLast(p.entries, (Ascii("signature"), signature));
  }

  /** Under this key the scheme accepts the message only if it is the payload of a packet in signed. */
  ghost predicate Unforgeable(c: Scheme, message: seq<Byte>, key: seq<Byte>, signed: set<Value>) {
    forall s :: c.verify(message, key, s) ==> exists p :: p in signed && BuildSigningPayload(p) == message
  }

  /**
   If the scheme accepts under the node's key only what that node signed, an accepted packet agrees in
   every signed field, up to key order, with a packet the node signed.
   */
  lemma {:induction false} AcceptedMeansSigned(c: Scheme, packet: Value, keyOf: Chars -> Option<seq<Byte>>, now: int,
                                               maxSkewSec: int, signed: set<Value>)
    requires WellFormed(packet) && forall p :: p in signed ==> WellFormed(p)
    requires VerifyPacket(c, packet, keyOf, now, maxSkewSec).Accepted?
    requires var id := Property(packet, Name(NodeId)); id.Str? && keyOf(id.s).Some? ==>
             Unforgeable(c, BuildSigningPayload(packet), keyOf(id.s).value, signed)
    ensures exists p :: p in signed && SameFields(p, packet)
  {
    hide StableStringify, ToUtf8, SameFields, WellFormed;
    var p :| p in signed && BuildSigningPayload(p) == BuildSigningPayload(packet);
    SigningPayloadIffSameFields(p, packet);
  }
}
