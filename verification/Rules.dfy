/**
 The history rule of services/rules/index.js: which actions are taken for an event.
 */
module Rules {
  import opened Results

  datatype Action = Replicate | Log | Analyse

  datatype Config = Config(replicate: bool, log: bool, analytics: bool)

  predicate Enabled(c: Config, a: Action) {
    match a
    case Replicate => c.replicate
    case Log => c.log
    case Analyse => c.analytics
  }

  /** A posted value: not an object, or an object in which each switch may be absent. */
  datatype Update = NotAnObject | Partial(replicate: Option<bool>, log: Option<bool>, analytics: Option<bool>)

  /** The switch of an action in a posted value, if it is there. */
  function Posted(u: Update, a: Action): Option<bool> {
    if u.NotAnObject? then None
    else
      match a
      case Replicate => u.replicate
      case Log => u.log
      case Analyse => u.analytics
  }

  function Switch(posted: Option<bool>, current: bool): bool {
    if posted.Some? then posted.value else current
  }

  /** The new settings spread over the old ones. */
  function Updated(c: Config, u: Update): (r: Config)
    ensures forall a :: Enabled(r, a) == if Posted(u, a).Some? then Posted(u, a).value else Enabled(c, a)
  {
    if u.NotAnObject? then c
    else Config(Switch(u.replicate, c.replicate), Switch(u.log, c.log), Switch(u.analytics, c.analytics))
  }

  class HistoryRule {
    var rule: Config

    constructor ()
      ensures rule == Config(false, false, false)
    {
      rule := Config(false, false, false);
    }

    method SetHistoryRule(value: Update)
      modifies this
      ensures rule == Updated(old(rule), value)
    {
      if value.NotAnObject? {
        return;
      }
      rule := Config(Switch(value.replicate, rule.replicate), Switch(value.log, rule.log),
                     Switch(value.analytics, rule.analytics));
    }

    method GetHistoryRule() returns (r: Config)
      ensures r == rule
    {
      r := rule;
    }
  }

  function Rank(a: Action): nat {
    match a
    case Replicate => 0
    case Log => 1
    case Analyse => 2
  }

  /** The enabled actions from a position on, in the order in which they are awaited. */
  function ActionsFrom(c: Config, position: nat): seq<Action> {
    (if position <= 0 && c.replicate then [Replicate] else [])
      + (if position <= 1 && c.log then [Log] else [])
      + (if position <= 2 && c.analytics then [Analyse] else [])
  }

  /** The actions awaited one after the other for a configuration. */
  function ActionsOf(c: Config): (r: seq<Action>)
    ensures forall i, j :: 0 <= i < j < |r| ==> Rank(r[i]) < Rank(r[j])
    ensures forall a :: a in r <==> Enabled(c, a)
  {
    ActionsFrom(c, 0)
  }

  /** The switches are read from a position on, up to the first that is on. */
  function NextAction(c: Config, position: nat): (r: Option<Action>)
    ensures r.Some? ==> Enabled(c, r.value) && Rank(r.value) >= position
    ensures forall a :: Enabled(c, a) && Rank(a) >= position ==> r.Some? && Rank(a) >= Rank(r.value)
  {
    if position <= 0 && c.replicate then Some(Replicate)
    else if position <= 1 && c.log then Some(Log)
    else if position <= 2 && c.analytics then Some(Analyse)
    else None
  }

  /** Reading the switches one action at a time goes through the enabled actions in order. */
  lemma NextIsFirst(c: Config, position: nat)
    ensures match NextAction(c, position)
      case None => ActionsFrom(c, position) == []
      case Some(a) => ActionsFrom(c, position) == [a] + ActionsFrom(c, Rank(a) + 1)
  {
  }

  /** The order of the awaits, and which switch is whose. */
  lemma ActionsInOrder(c: Config)
    ensures ActionsOf(Config(true, true, true)) == [Replicate, Log, Analyse]
    ensures Replicate in ActionsOf(c) <==> c.replicate
    ensures Log in ActionsOf(c) <==> c.log
    ensures Analyse in ActionsOf(c) <==> c.analytics
    ensures c.replicate ==> ActionsOf(c)[0] == Replicate
    ensures c.analytics ==> ActionsOf(c)[|ActionsOf(c)| - 1] == Analyse
    ensures |ActionsOf(c)| <= 3
  {
  }

  /** A full update is taken over as it is, an empty one and anything but an object change nothing. */
  lemma UpdatesTakenOver(c: Config, replicate: bool, log: bool, analytics: bool)
    ensures Updated(c, Partial(Some(replicate), Some(log), Some(analytics))) == Config(replicate, log, analytics)
    ensures Updated(c, Partial(None, None, None)) == Updated(c, NotAnObject) == c
  {
  }
}
