/**
 Two-party runs of the channel: delivery between matching epochs, rejection across
 epochs and directions, and uniqueness of nonces over whole runs.
 */
module ChannelRuns {
  import opened Results
  import opened Encoding
  import opened Hkdf
  import opened SessionKeys
  import opened Text
  import opened SecureChannel

  function Peer(c: Config): Config {
    c.(role := Other(c.role))
  }

  function Rekeys(actions: seq<Action>): nat {
    if actions == [] then 0 else (if actions[0].Rekey? then 1 else 0) + Rekeys(actions[1..])
  }

  /** The epoch counts the rekeys and nothing else. */
  lemma {:induction false} EpochCountsRekeys(s: ChannelState, actions: seq<Action>)
    requires Usable(s.config)
    ensures Run(s, actions).epoch == s.epoch + Rekeys(actions)
    decreases actions
  {
    if actions != [] { EpochCountsRekeys(Next(s, actions[0]), actions[1..]); }
  }

  /** In equal epochs the keys one party sends with are those the other receives with, both ways. */
  lemma {:induction false} MatchingKeys(c: Config, mine: seq<Action>, theirs: seq<Action>)
    requires Usable(c) && Rekeys(mine) == Rekeys(theirs)
    ensures var a, b := Run(Initial(c), mine), Run(Initial(Peer(c)), theirs);
      SendKeys(a) == RecvKeys(b) && RecvKeys(a) == SendKeys(b)
  {
    EpochCountsRekeys(Initial(c), mine);
    EpochCountsRekeys(Initial(Peer(c)), theirs);
  }

  /**
   Delivery: whatever either party did before, a message sealed by one decrypts to its plaintext
   at the other when both have rekeyed equally often. The receiver's history is arbitrary, so the
   order of messages, losses and duplicates do not matter.
   */
  lemma {:induction false} Delivery(c: Config, mine: seq<Action>, theirs: seq<Action>, plain: seq<Byte>, aad: seq<Byte>)
    requires Usable(c) && c.keyLength == 32 && CorrectAead(c.aead) && Rekeys(mine) == Rekeys(theirs)
    ensures var m := Sealed(Run(Initial(c), mine), plain, aad);
      m.Ok? &&
      Opened(Run(Initial(Peer(c)), theirs), m.value.nonce, m.value.ciphertext, m.value.tag, aad) == Ok(Some(plain))
  {
    MatchingKeys(c, mine, theirs);
    var a := Run(Initial(c), mine);
    var keys := SendKeys(a);
    assert Invertible(c.aead, keys.encKey, NonceFor(keys.nonceBase, a.sendCounter), plain, aad);
  }

  /** Different contexts give different keys: the key derivation has no collision on these two. */
  ghost predicate NoKeyCollision(c: Config, epoch: nat, sender: Role, epoch': nat, sender': Role)
    requires Usable(c)
  {
    Context(c.base, epoch, sender) != Context(c.base, epoch', sender') ==>
      KeysFor(c, epoch, sender).encKey != KeysFor(c, epoch', sender').encKey
  }

  /** The AEAD does not open this message under a key it was not sealed with. */
  ghost predicate KeyCommitting(a: Aead, key: seq<Byte>, key': seq<Byte>, nonce: seq<Byte>, plain: seq<Byte>,
                                aad: seq<Byte>)
  {
    var (cipher, tag) := a.seal(key, nonce, plain, aad);
    key != key' ==> a.open(key', nonce, cipher, tag, aad) == None
  }

  /**
   With an ideal AEAD and key derivation, a message opens at a party exactly when that party is in
   the message's epoch and is not the one in the sending direction; otherwise the result is null.
   */
  lemma {:induction false} OpensIffSameEpochAndDirection(c: Config, role: Role, mine: seq<Action>, theirs: seq<Action>,
                                                         plain: seq<Byte>, aad: seq<Byte>)
    requires Usable(c) && c.keyLength == 32 && CorrectAead(c.aead)
    requires NoKeyCollision(c, Rekeys(mine), c.role, Rekeys(theirs), Other(role))
    requires var s := Run(Initial(c), mine);
             var keys, keys' := SendKeys(s), RecvKeys(Run(Initial(c.(role := role)), theirs));
             KeyCommitting(c.aead, keys.encKey, keys'.encKey, NonceFor(keys.nonceBase, s.sendCounter), plain, aad)
    ensures var m := Sealed(Run(Initial(c), mine), plain, aad);
      m.Ok? &&
      Opened(Run(Initial(c.(role := role)), theirs), m.value.nonce, m.value.ciphertext, m.value.tag, aad)
        == Ok(if Rekeys(mine) == Rekeys(theirs) && role != c.role then Some(plain) else None)
  {
    var a, b := Run(Initial(c), mine), Run(Initial(c.(role := role)), theirs);
    EpochCountsRekeys(Initial(c), mine);
    EpochCountsRekeys(Initial(c.(role := role)), theirs);
    var keys := SendKeys(a);
    assert Invertible(c.aead, keys.encKey, NonceFor(keys.nonceBase, a.sendCounter), plain, aad);
    if Context(c.base, a.epoch, c.role) == Context(c.base, b.epoch, Other(role)) {
      ContextInjective(c.base, a.epoch, c.role, c.base, b.epoch, Other(role));
    }
    assert RecvKeys(b) == KeysFor(c, b.epoch, Other(role));
  }

  // ----- Nonces over a whole run -----

  /** The (epoch, counter) pairs of the encryption calls of a run, in order; with 32-byte keys each seals a message. */
  function Sends(s: ChannelState, actions: seq<Action>): seq<(nat, nat)>
    requires Usable(s.config)
    decreases actions
  {
    if actions == [] then []
    else (if actions[0].Send? then [(s.epoch, s.sendCounter)] else []) + Sends(Next(s, actions[0]), actions[1..])
  }

  function Count(sends: seq<(nat, nat)>, epoch: nat): nat {
    if sends == [] then 0 else (if sends[0].0 == epoch then 1 else 0) + Count(sends[1..], epoch)
  }

  /** A message's counter tells how many messages of its epoch came before it. */
  lemma {:induction false} CounterIsPosition(s: ChannelState, actions: seq<Action>, i: nat)
    requires Usable(s.config) && i < |Sends(s, actions)|
    ensures var sends := Sends(s, actions); var (e, n) := sends[i];
      e >= s.epoch && n == (if e == s.epoch then s.sendCounter else 1) + Count(sends[..i], e)
    decreases actions
  {
    var sends, s', rest := Sends(s, actions), Next(s, actions[0]), Sends(Next(s, actions[0]), actions[1..]);
    if actions[0].Send? {
      if i > 0 {
        CounterIsPosition(s', actions[1..], i - 1);
        assert sends[..i] == [sends[0]] + rest[..i - 1];
      }
    } else {
      CounterIsPosition(s', actions[1..], i);
      assert sends == rest;
    }
  }

  lemma {:induction false} CountSplit(s: seq<(nat, nat)>, i: nat, epoch: nat)
    requires i <= |s|
    ensures Count(s, epoch) == Count(s[..i], epoch) + Count(s[i..], epoch)
  {
    if i > 0 {
      CountSplit(s[1..], i - 1, epoch);
      assert s[..i][1..] == s[1..][..i - 1] && s[i..] == s[1..][i - 1..];
    } else {
      assert s[..0] == [] && s[0..] == s;
    }
  }

  lemma CountAhead(s: seq<(nat, nat)>, i: nat, j: nat)
    requires i < j <= |s|
    ensures Count(s[..i], s[i].0) + 1 <= Count(s[..j], s[i].0)
  {
    CountSplit(s[..j], i, s[i].0);
    assert s[..j][..i] == s[..i] && s[..j][i..][0] == s[i];
  }

  /** There is a message of the epoch with exactly n predecessors in it, for every n below the count. */
  lemma {:induction false} NthOfEpoch(s: seq<(nat, nat)>, epoch: nat, n: nat) returns (i: nat)
    requires n < Count(s, epoch)
    ensures i < |s| && s[i].0 == epoch && Count(s[..i], epoch) == n
  {
    if s[0].0 == epoch && n == 0 {
      i := 0;
    } else {
      var h := if s[0].0 == epoch then 1 else 0;
      var k := NthOfEpoch(s[1..], epoch, n - h);
      i := k + 1;
      assert s[..i][1..] == s[1..][..k];
    }
  }

  /** The nonce of the i-th message of a run. */
  function NonceAt(c: Config, sent: (nat, nat)): seq<Byte>
    requires Usable(c)
  {
    NonceFor(KeysFor(c, sent.0, c.role).nonceBase, sent.1)
  }

  /** No two messages of the run share epoch and nonce (their direction is the channel's). */
  ghost predicate NoNonceRepeats(c: Config, sends: seq<(nat, nat)>)
    requires Usable(c)
  {
    forall i, j :: 0 <= i < j < |sends| ==>
      sends[i].0 != sends[j].0 || NonceAt(c, sends[i]) != NonceAt(c, sends[j])
  }

  ghost predicate WithinLimit(sends: seq<(nat, nat)>) {
    forall e: nat :: Count(sends, e) <= WORD
  }

  lemma {:induction false} DistinctPair(c: Config, actions: seq<Action>, i: nat, j: nat)
    requires Usable(c) && i < j < |Sends(Initial(c), actions)| && WithinLimit(Sends(Initial(c), actions))
    ensures var sends := Sends(Initial(c), actions);
      sends[i].0 != sends[j].0 || NonceAt(c, sends[i]) != NonceAt(c, sends[j])
  {
    var sends := Sends(Initial(c), actions);
    var (e, m) := sends[i];
    var (e', n) := sends[j];
    if e == e' {
      CounterIsPosition(Initial(c), actions, i);
      CounterIsPosition(Initial(c), actions, j);
      CountAhead(sends, i, j);
      CountAhead(sends, j, |sends|);
      assert sends[..|sends|] == sends;
      assert 1 <= m < n <= Count(sends, e) <= WORD;
      NonceEqualIffCongruent(KeysFor(c, e, c.role).nonceBase, m, n);
      NotCongruent(m, n);
    }
  }

  lemma NotCongruent(m: nat, n: nat)
    requires m < n < m + WORD
    ensures m % WORD != n % WORD
  {
  }

  /**
   Over a whole run, across any number of rekeys, an (epoch, direction, nonce) triple is never
   reused exactly when no epoch makes more than 2^32 encryption calls.
   */
  lemma {:induction false} NonceUniqueness(c: Config, actions: seq<Action>)
    requires Usable(c)
    ensures NoNonceRepeats(c, Sends(Initial(c), actions)) <==> WithinLimit(Sends(Initial(c), actions))
  {
    var sends := Sends(Initial(c), actions);
    if WithinLimit(sends) {
      forall i, j | 0 <= i < j < |sends|
        ensures sends[i].0 != sends[j].0 || NonceAt(c, sends[i]) != NonceAt(c, sends[j])
      {
        DistinctPair(c, actions, i, j);
      }
    } else {
      var e: nat :| Count(sends, e) > WORD;
      var i, j := OverLimitRepeats(c, actions, e);
    }
  }

  /** The first and the 2^32 + 1st message of an epoch have the same nonce. */
  lemma OverLimitRepeats(c: Config, actions: seq<Action>, e: nat) returns (i: nat, j: nat)
    requires Usable(c) && Count(Sends(Initial(c), actions), e) > WORD
    ensures var sends := Sends(Initial(c), actions);
      i < j < |sends| && sends[i].0 == sends[j].0 && NonceAt(c, sends[i]) == NonceAt(c, sends[j])
  {
    hide Sends, NonceFor, KeysFor;
    var sends := Sends(Initial(c), actions);
    i := NthOfEpoch(sends, e, 0);
    j := NthOfEpoch(sends, e, WORD);
    CounterIsPosition(Initial(c), actions, i);
    CounterIsPosition(Initial(c), actions, j);
    if j < i { CountAhead(sends, j, i); }
    NonceEqualIffCongruent(KeysFor(c, e, c.role).nonceBase, 1, 1 + WORD);
    assert sends[i].1 == 1 && sends[j].1 == 1 + WORD;
  }

  // ----- What a message and an opened message are, from the primitives -----

  /** The send counter is one more than the number of encryption calls so far in the epoch. */
  lemma {:induction false} CounterCountsSends(s: ChannelState, actions: seq<Action>)
    requires Usable(s.config)
    ensures Run(s, actions).sendCounter
      == (if Rekeys(actions) == 0 then s.sendCounter else 1) + Count(Sends(s, actions), s.epoch + Rekeys(actions))
    decreases actions
  {
    hide Opened;
    if actions != [] {
      var s', rest := Next(s, actions[0]), Sends(Next(s, actions[0]), actions[1..]);
      CounterCountsSends(s', actions[1..]);
      if actions[0].Send? {
        assert Sends(s, actions) == [(s.epoch, s.sendCounter)] + rest && Sends(s, actions)[1..] == rest;
      } else {
        assert Sends(s, actions) == rest;
      }
    }
  }

  /** The (epoch, counter) pairs of the messages opened in a run, in order. */
  function Opens(s: ChannelState, actions: seq<Action>): seq<(nat, nat)>
    requires Usable(s.config)
    decreases actions
  {
    if actions == [] then []
    else (if Succeeds(s, actions[0]) then [(s.epoch, s.recvCounter)] else []) + Opens(Next(s, actions[0]), actions[1..])
  }

  predicate Succeeds(s: ChannelState, a: Action)
    requires Usable(s.config)
  {
    && a.Receive? && Opened(s, a.nonce, a.ciphertext, a.tag, a.aad).Ok?
    && Opened(s, a.nonce, a.ciphertext, a.tag, a.aad).value.Some?
  }

  /** The receive counter is one more than the number of messages opened so far in the epoch. */
  lemma {:induction false} CounterCountsOpens(s: ChannelState, actions: seq<Action>)
    requires Usable(s.config)
    ensures Run(s, actions).recvCounter
      == (if Rekeys(actions) == 0 then s.recvCounter else 1) + Count(Opens(s, actions), s.epoch + Rekeys(actions))
    decreases actions
  {
    hide Opened;
    if actions != [] {
      var s', rest := Next(s, actions[0]), Opens(Next(s, actions[0]), actions[1..]);
      CounterCountsOpens(s', actions[1..]);
      if Succeeds(s, actions[0]) {
        assert Opens(s, actions) == [(s.epoch, s.recvCounter)] + rest && Opens(s, actions)[1..] == rest;
      } else {
        assert Opens(s, actions) == rest;
      }
    }
  }

  /** The keys of a direction of an epoch, derived from the context spelled out. */
  function DirectionKeys(c: Config, epoch: nat, arrow: seq<Byte>): Result<Keys>
    requires Lawful(c.prims)
  {
    Derive(c.prims, Some(c.secret), c.base + Ascii("/epoch-") + Decimal(epoch) + arrow, c.hash, c.keyLength)
  }

  function ToPeer(r: Role): seq<Byte> {
    match r
    case Alice => Ascii("/alice->bob")
    case Bob => Ascii("/bob->alice")
  }

  function FromPeer(r: Role): seq<Byte> {
    match r
    case Alice => Ascii("/bob->alice")
    case Bob => Ascii("/alice->bob")
  }

  /**
   The message sealed after a run: its epoch is the number of rekeys, its counter the position in the epoch,
   its nonce that of the counter, and it is sealed under the encryption key of the direction to the peer.
   */
  lemma {:induction false} MessageSealed(c: Config, mine: seq<Action>, plain: seq<Byte>, aad: seq<Byte>)
    requires Usable(c)
    ensures var keys := DirectionKeys(c, Rekeys(mine), ToPeer(c.role));
      var n := 1 + Count(Sends(Initial(c), mine), Rekeys(mine));
      keys.Ok? && |keys.value.nonceBase| == 12 &&
      var nonce := NonceFor(keys.value.nonceBase, n);
      Sealed(Run(Initial(c), mine), plain, aad) ==
        if c.keyLength != 32 then Failure("chacha20poly1305: key must be 32 bytes")
        else
          var (cipher, tag) := c.aead.seal(keys.value.encKey, nonce, plain, aad);
          Ok(Message(nonce, cipher, tag, n, Rekeys(mine)))
  {
    hide Derive, Ascii, Decimal, NonceFor, Count, Sends, Usable, KeysFor, DirectionKeys;
    EpochCountsRekeys(Initial(c), mine);
    CounterCountsSends(Initial(c), mine);
    ContextText(c.base, Rekeys(mine));
    KeysOfDirection(c, Rekeys(mine), c.role);
  }

  lemma KeysOfDirection(c: Config, epoch: nat, sender: Role)
    requires Usable(c)
    ensures DirectionKeys(c, epoch, ToPeer(sender)) == Ok(KeysFor(c, epoch, sender))
    ensures DirectionKeys(c, epoch, FromPeer(Other(sender))) == Ok(KeysFor(c, epoch, sender))
  {
    ContextText(c.base, epoch);
    DeriveSucceeds(c.prims, Some(c.secret), Context(c.base, epoch, sender), c.hash, c.keyLength);
    hide Derive, Ascii, Decimal, Context;
  }

  /** Opening after a run: under the encryption key of the direction from the peer, for arguments of fixed lengths. */
  lemma {:induction false} MessageOpened(c: Config, mine: seq<Action>, nonce: seq<Byte>, cipher: seq<Byte>,
                                         tag: seq<Byte>, aad: seq<Byte>)
    requires Usable(c)
    ensures var keys := DirectionKeys(c, Rekeys(mine), FromPeer(c.role));
      keys.Ok? &&
      Opened(Run(Initial(c), mine), nonce, cipher, tag, aad) ==
        if c.keyLength != 32 then Failure("chacha20poly1305: key must be 32 bytes")
        else if |nonce| != 12 then Failure("chacha20poly1305: nonce must be 12 bytes")
        else if |tag| != 16 then Failure("chacha20poly1305: tag must be 16 bytes")
        else Ok(c.aead.open(keys.value.encKey, nonce, cipher, tag, aad))
  {
    hide Derive, Ascii, Decimal;
    EpochCountsRekeys(Initial(c), mine);
    KeysOfDirection(c, Rekeys(mine), Other(c.role));
  }
}
