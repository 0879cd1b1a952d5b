// Cancellation over any number of connections (src/dumbpipe.rs). Tokens form a tree: the accept loop
// has one token of the program's, `forward_bidi` makes a child of it for each connection, and both pumps
// of a connection hold clones of that child.
module Dumbpipe {
  import opened Bytes

  // ----- the token tree -----

  /** A node; clones of a token share one. */
  datatype Token = Token(parent: Option<nat>, cancelled: bool)

  type Tree = seq<Token>

  predicate Rooted(tree: Tree) {
    forall k :: 0 <= k < |tree| && tree[k].parent.Some? ==> tree[k].parent.value < k
  }

  /** `is_cancelled`: the token or one of its ancestors was cancelled. */
  predicate IsCancelled(tree: Tree, k: nat)
    requires Rooted(tree) && k < |tree|
  {
    tree[k].cancelled || (tree[k].parent.Some? && IsCancelled(tree, tree[k].parent.value))
  }

  /** `k` is `x` or a descendant of it. */
  predicate Under(tree: Tree, k: nat, x: nat)
    requires Rooted(tree) && k < |tree|
  {
    k == x || (tree[k].parent.Some? && Under(tree, tree[k].parent.value, x))
  }

  /** `cancel` */
  function Cancel(tree: Tree, x: nat): Tree
    requires x < |tree|
  {
    tree[x := tree[x].(cancelled := true)]
  }

  /** `child_token`; the child is the last node. */
  function AddChild(tree: Tree, parent: nat): Tree {
    tree + [Token(Some(parent), false)]
  }

  /** Cancelling a token cancels exactly the tokens below it. */
  lemma {:induction false} CancelReaches(tree: Tree, x: nat, k: nat)
    requires Rooted(tree) && x < |tree| && k < |tree|
    ensures Rooted(Cancel(tree, x))
    ensures IsCancelled(Cancel(tree, x), k) <==> IsCancelled(tree, k) || Under(tree, k, x)
  {
    if tree[k].parent.Some? {
      CancelReaches(tree, x, tree[k].parent.value);
    }
  }

  /** Whether a token is cancelled depends on the nodes up to it only. */
  lemma {:induction false} SameHead(tree: Tree, other: Tree, n: nat, k: nat)
    requires Rooted(tree) && Rooted(other) && k < n <= |tree| && n <= |other| && tree[..n] == other[..n]
    ensures IsCancelled(tree, k) == IsCancelled(other, k)
  {
    assert tree[k] == tree[..n][k] == other[k];
    if tree[k].parent.Some? {
      SameHead(tree, other, n, tree[k].parent.value);
    }
  }

  // ----- connections -----

  datatype PumpState = Copying | AtEof | IoFailed | SawCancel

  datatype Pump = Pump(token: nat, state: PumpState)

  /** A handler that has not come to `forward_bidi` yet, or the two pumps. */
  datatype Connection = Handling | Forwarding(sending: Pump, receiving: Pump)

  /** The two accept loops: `connect_tcp` accepts TCP connections, `listen_tcp` QUIC connections. */
  datatype Loop = ConnectTcp | ListenTcp

  /** The first `base` tokens are the program's own; one of them is the accept loop's. */
  datatype System = System(
    tree: Tree, base: nat, loopToken: nat, loop: Loop,
    accepting: bool,
    connections: seq<Connection>)

  datatype PumpEvent = Eof | IoError | NoticeCancel

  datatype Action =
    | Accept
    | Forward(i: nat)                            // the handler calls `forward_bidi`
    | OnPump(i: nat, send: bool, event: PumpEvent)
    | CancelOwn(x: nat)                          // the program cancels one of its own tokens
    | LoopNoticesCancel
    | EndpointCloses                             // the QUIC endpoint yields no more attempts
    | AttemptFails                               // one peer's attempt cannot be accepted

  predicate WellFormed(s: System) {
    && Rooted(s.tree) && s.loopToken < s.base <= |s.tree|
    && forall i :: 0 <= i < |s.connections| ==> HoldsChild(s, s.connections[i])
  }

  /** Both pumps of a connection hold the same child of the loop's token. */
  predicate HoldsChild(s: System, c: Connection) {
    c.Forwarding? ==>
      && c.receiving.token == c.sending.token && s.base <= c.sending.token < |s.tree|
      && s.tree[c.sending.token].parent == Some(s.loopToken)
  }

  function Initial(tree: Tree, loopToken: nat, loop: Loop): System {
    System(tree, |tree|, loopToken, loop, true, [])
  }

  /** What ends an accept loop whose token is in `tree`. `connect_tcp` hands a failed attempt to a handler,
      and does not watch the endpoint. */
  predicate StopsLoop(tree: Tree, loopToken: nat, loop: Loop, a: Action)
    requires Rooted(tree) && loopToken < |tree|
  {
    match a
    case LoopNoticesCancel => IsCancelled(tree, loopToken)
    case EndpointCloses => loop == ListenTcp
    case AttemptFails => loop == ListenTcp
    case _ => false
  }

  /** A pump ends at its end of file, with an I/O error, or because its token is cancelled; an error of
      either kind cancels the token that the pump holds (`map_err(cancel_token(..))`). */
  function PumpStep(s: System, i: nat, send: bool, event: PumpEvent): System
    requires WellFormed(s) && i < |s.connections| && s.connections[i].Forwarding?
  {
    var c := s.connections[i];
    assert HoldsChild(s, c);
    var p := if send then c.sending else c.receiving;
    if p.state != Copying || (event.NoticeCancel? && !IsCancelled(s.tree, p.token)) then s
    else
      var q := p.(state := match event case Eof => AtEof case IoError => IoFailed case NoticeCancel => SawCancel);
      s.(connections := s.connections[i := if send then c.(sending := q) else c.(receiving := q)],
         tree := if event.Eof? then s.tree else Cancel(s.tree, p.token))
  }

  function Step(s: System, a: Action): System
    requires WellFormed(s)
  {
    match a
    case Accept => if s.accepting then s.(connections := s.connections + [Handling]) else s
    case Forward(i) =>
      if i < |s.connections| && s.connections[i].Handling? then
        var pump := Pump(|s.tree|, Copying);
        s.(tree := AddChild(s.tree, s.loopToken), connections := s.connections[i := Forwarding(pump, pump)])
      else s
    case OnPump(i, send, event) =>
      if i < |s.connections| && s.connections[i].Forwarding? then PumpStep(s, i, send, event) else s
    case CancelOwn(x) => if x < s.base then s.(tree := Cancel(s.tree, x)) else s
    case _ => if StopsLoop(s.tree, s.loopToken, s.loop, a) then s.(accepting := false) else s
  }

  lemma StepKeepsWellFormed(s: System, a: Action)
    requires WellFormed(s)
    ensures WellFormed(Step(s, a))
  {
    var t := Step(s, a);
    assert a.OnPump? && a.i < |s.connections| ==> HoldsChild(s, s.connections[a.i]);
    forall i | 0 <= i < |t.connections|
      ensures HoldsChild(t, t.connections[i])
    {
      assert i < |s.connections| ==> HoldsChild(s, s.connections[i]);
    }
  }

  function Run(s: System, actions: seq<Action>): System
    requires WellFormed(s)
    decreases |actions|
  {
    if actions == [] then s
    else
      StepKeepsWellFormed(s, actions[0]);
      Run(Step(s, actions[0]), actions[1..])
  }

  /** The token that the pumps of a connection hold. */
  function TokenOf(s: System, i: nat): nat
    requires i < |s.connections| && s.connections[i].Forwarding?
  {
    s.connections[i].sending.token
  }

  // ----- why a token is cancelled -----

  predicate HasIoError(c: Connection) {
    c.Forwarding? && (c.sending.state.IoFailed? || c.receiving.state.IoFailed?)
  }

  predicate Explained(s: System, i: nat)
    requires WellFormed(s) && i < |s.connections|
  {
    var c := s.connections[i];
    c.Forwarding? ==>
      var k := c.sending.token;
      assert HoldsChild(s, c);
      (HasIoError(c) ==> s.tree[k].cancelled)
      && (s.tree[k].cancelled ==> HasIoError(c) || IsCancelled(s.tree, s.loopToken))
  }

  /** No two connections share a token. */
  predicate Apart(s: System) {
    forall i, j :: 0 <= i < j < |s.connections| && s.connections[i].Forwarding? && s.connections[j].Forwarding?
      ==> TokenOf(s, i) != TokenOf(s, j)
  }

  predicate Inv(s: System) {
    && WellFormed(s) && Apart(s)
    && (forall i :: 0 <= i < |s.connections| ==> Explained(s, i))
  }

  /** What the program itself does to its own tokens. */
  function OwnTokens(tree: Tree, actions: seq<Action>): (r: Tree)
    decreases |actions|
    ensures |r| == |tree| && (Rooted(tree) ==> Rooted(r))
  {
    if actions == [] then tree
    else
      var a := actions[0];
      OwnTokens(if a.CancelOwn? && a.x < |tree| then Cancel(tree, a.x) else tree, actions[1..])
  }

  /** A step changes the program's own tokens only if the program does, and cancels the loop's or not at all. */
  lemma StepOnOwn(s: System, a: Action)
    requires WellFormed(s)
    ensures var t := Step(s, a);
      && t.base == s.base && t.loopToken == s.loopToken && t.loop == s.loop && |s.tree| <= |t.tree|
      && t.tree[..s.base] == OwnTokens(s.tree[..s.base], [a])
      && (!a.CancelOwn? ==> t.tree[..s.base] == s.tree[..s.base])
  {
    if a.OnPump? && a.i < |s.connections| {
      assert HoldsChild(s, s.connections[a.i]);
    }
    assert [a][1..] == [];
  }

  lemma LoopKeeps(s: System, a: Action)
    requires WellFormed(s)
    ensures WellFormed(Step(s, a))
    ensures IsCancelled(s.tree, s.loopToken) ==> IsCancelled(Step(s, a).tree, s.loopToken)
    ensures !a.CancelOwn? ==> IsCancelled(Step(s, a).tree, s.loopToken) == IsCancelled(s.tree, s.loopToken)
  {
    StepKeepsWellFormed(s, a);
    StepOnOwn(s, a);
    if a.CancelOwn? {
      if a.x < s.base {
        CancelReaches(s.tree, a.x, s.loopToken);
      }
    } else {
      SameHead(s.tree, Step(s, a).tree, s.base, s.loopToken);
    }
  }

  lemma StepKeepsApart(s: System, a: Action)
    requires WellFormed(s) && Apart(s)
    ensures Apart(Step(s, a))
  {
    assert forall i :: 0 <= i < |s.connections| && s.connections[i].Forwarding? ==>
        HoldsChild(s, s.connections[i]);
  }

  /** What a step does to the token of a connection: nothing, unless it is an error of its own pumps. */
  lemma TokenStep(s: System, a: Action, i: nat)
    requires WellFormed(s) && Apart(s) && i < |s.connections| && s.connections[i].Forwarding?
    ensures WellFormed(Step(s, a))
    ensures var t := Step(s, a);
      && i < |t.connections| && t.connections[i].Forwarding? && TokenOf(t, i) == TokenOf(s, i) < |s.tree| <= |t.tree|
      && (if a.OnPump? && a.i == i then true else t.connections[i] == s.connections[i])
      && (if a.OnPump? && a.i == i && t != s && !a.event.Eof? then t.tree[TokenOf(s, i)].cancelled
          else t.tree[TokenOf(s, i)] == s.tree[TokenOf(s, i)])
  {
    StepKeepsWellFormed(s, a);
    assert HoldsChild(s, s.connections[i]);
    if a.OnPump? && a.i < |s.connections| && s.connections[a.i].Forwarding? {
      assert HoldsChild(s, s.connections[a.i]);
      assert a.i != i ==> TokenOf(s, a.i) != TokenOf(s, i);
    }
  }

  lemma StepKeepsExplained(s: System, a: Action, i: nat)
    requires Inv(s) && i < |Step(s, a).connections|
    ensures WellFormed(Step(s, a)) && Explained(Step(s, a), i)
  {
    hide IsCancelled;
    StepKeepsWellFormed(s, a);
    LoopKeeps(s, a);
    StepOnOwn(s, a);
    if i < |s.connections| && s.connections[i].Forwarding? {
      assert Explained(s, i);
      CancelledByParent(s, i);
      TokenStep(s, a, i);
    }
  }

  /** A connection's token is cancelled by itself or through the loop's. */
  lemma CancelledByParent(s: System, i: nat)
    requires WellFormed(s) && i < |s.connections| && s.connections[i].Forwarding?
    ensures HoldsChild(s, s.connections[i])
    ensures IsCancelled(s.tree, TokenOf(s, i)) <==> s.tree[TokenOf(s, i)].cancelled || IsCancelled(s.tree, s.loopToken)
  {
    assert HoldsChild(s, s.connections[i]);
  }

  lemma StepKeepsInv(s: System, a: Action)
    requires Inv(s)
    ensures Inv(Step(s, a))
  {
    hide IsCancelled, Explained, Apart, WellFormed;
    LoopKeeps(s, a);
    StepKeepsApart(s, a);
    forall i | 0 <= i < |Step(s, a).connections|
      ensures Explained(Step(s, a), i)
    {
      StepKeepsExplained(s, a, i);
    }
    StepOnOwn(s, a);
  }

  lemma {:induction false} OwnTokensConcat(tree: Tree, a: seq<Action>, b: seq<Action>)
    decreases |a|
    ensures OwnTokens(tree, a + b) == OwnTokens(OwnTokens(tree, a), b)
  {
    if a == [] {
      assert a + b == b;
    } else {
      assert (a + b)[1..] == a[1..] + b;
      var head := if a[0].CancelOwn? && a[0].x < |tree| then Cancel(tree, a[0].x) else tree;
      OwnTokensConcat(head, a[1..], b);
    }
  }

  lemma {:induction false} RunKeepsInv(s: System, actions: seq<Action>)
    requires Inv(s)
    decreases |actions|
    ensures Inv(Run(s, actions))
    ensures var t := Run(s, actions);
      && t.base == s.base && t.loopToken == s.loopToken && t.loop == s.loop && |s.tree| <= |t.tree|
      && t.tree[..s.base] == OwnTokens(s.tree[..s.base], actions)
  {
    hide Inv, Step;
    if actions != [] {
      StepKeepsInv(s, actions[0]);
      InvIsWellFormed(s);
      StepOnOwn(s, actions[0]);
      RunKeepsInv(Step(s, actions[0]), actions[1..]);
      assert actions == [actions[0]] + actions[1..];
      OwnTokensConcat(s.tree[..s.base], [actions[0]], actions[1..]);
    } else {
      InvIsWellFormed(s);
    }
  }

  lemma InvIsWellFormed(s: System)
    requires Inv(s)
    ensures WellFormed(s)
  {
  }

  /** In every run over any tree: the pumps of a connection are cancelled exactly if one of them had an
      I/O error or the accept loop's token is cancelled; and what connections do leaves every token of the
      program as the program itself made it. */
  lemma CancelledExactlyIf(tree: Tree, loopToken: nat, loop: Loop, actions: seq<Action>, i: nat)
    requires Rooted(tree) && loopToken < |tree|
    requires i < |Run(Initial(tree, loopToken, loop), actions).connections|
    requires Run(Initial(tree, loopToken, loop), actions).connections[i].Forwarding?
    ensures var s := Run(Initial(tree, loopToken, loop), actions);
      && WellFormed(s) && |tree| <= TokenOf(s, i) < |s.tree| && s.connections[i].receiving.token == TokenOf(s, i)
      && (IsCancelled(s.tree, TokenOf(s, i)) <==> HasIoError(s.connections[i]) || IsCancelled(s.tree, loopToken))
      && s.tree[..|tree|] == OwnTokens(tree, actions)
  {
    hide IsCancelled, Step;
    var s0 := Initial(tree, loopToken, loop);
    assert s0.tree[..s0.base] == tree;
    RunKeepsInv(s0, actions);
    var s := Run(s0, actions);
    CancelledByParent(s, i);
    assert Explained(s, i);
  }

  // ----- when the loop still accepts -----

  /** The program has cancelled the loop's token, or one above it. */
  predicate CancelledBy(tree: Tree, loopToken: nat, actions: seq<Action>)
    requires Rooted(tree) && loopToken < |tree|
  {
    IsCancelled(tree, loopToken)
    || exists k :: 0 <= k < |actions| && actions[k].CancelOwn? && actions[k].x < |tree| && Under(tree, loopToken, actions[k].x)
  }

  /** The action ends the loop: it notices a cancellation that the program made, or, for `listen_tcp`, the
      endpoint closes or an attempt fails. */
  predicate EndsLoop(tree: Tree, loopToken: nat, loop: Loop, before: seq<Action>, a: Action)
    requires Rooted(tree) && loopToken < |tree|
  {
    || (a == LoopNoticesCancel && CancelledBy(tree, loopToken, before))
    || (loop == ListenTcp && (a == EndpointCloses || a == AttemptFails))
  }

  /** Nothing up to now has ended the loop, as far as one can tell from the actions alone. */
  predicate Unstopped(tree: Tree, loopToken: nat, loop: Loop, actions: seq<Action>)
    requires Rooted(tree) && loopToken < |tree|
  {
    forall k :: 0 <= k < |actions| ==> !EndsLoop(tree, loopToken, loop, actions[..k], actions[k])
  }

  lemma {:induction false} UnderStays(tree: Tree, x: nat, k: nat, y: nat)
    requires Rooted(tree) && x < |tree| && k < |tree|
    ensures Rooted(Cancel(tree, x)) && Under(Cancel(tree, x), k, y) == Under(tree, k, y)
  {
    if tree[k].parent.Some? {
      UnderStays(tree, x, tree[k].parent.value, y);
    }
  }

  lemma {:induction false} OwnTokensCancelled(tree: Tree, loopToken: nat, actions: seq<Action>)
    requires Rooted(tree) && loopToken < |tree|
    decreases |actions|
    ensures IsCancelled(OwnTokens(tree, actions), loopToken) <==> CancelledBy(tree, loopToken, actions)
  {
    hide IsCancelled, Under;
    if actions != [] {
      var a, rest := actions[0], actions[1..];
      var next := if a.CancelOwn? && a.x < |tree| then Cancel(tree, a.x) else tree;
      if a.CancelOwn? && a.x < |tree| {
        CancelReaches(tree, a.x, loopToken);
        forall y
          ensures Under(next, loopToken, y) == Under(tree, loopToken, y)
        {
          UnderStays(tree, a.x, loopToken, y);
        }
      }
      OwnTokensCancelled(next, loopToken, rest);
      CancelledSplit(tree, next, loopToken, actions);
    }
  }

  lemma CancelledSplit(tree: Tree, next: Tree, loopToken: nat, actions: seq<Action>)
    requires Rooted(tree) && Rooted(next) && loopToken < |tree| == |next| && actions != []
    requires forall y :: Under(next, loopToken, y) == Under(tree, loopToken, y)
    requires var a := actions[0];
      IsCancelled(next, loopToken)
      <==> IsCancelled(tree, loopToken) || (a.CancelOwn? && a.x < |tree| && Under(tree, loopToken, a.x))
    ensures CancelledBy(next, loopToken, actions[1..]) <==> CancelledBy(tree, loopToken, actions)
  {
    hide IsCancelled, Under;
    if CancelledBy(tree, loopToken, actions) && !IsCancelled(next, loopToken) {
      var k :| 0 <= k < |actions| && actions[k].CancelOwn? && actions[k].x < |tree| && Under(tree, loopToken, actions[k].x);
      assert k > 0 && actions[1..][k - 1] == actions[k];
    }
    if CancelledBy(next, loopToken, actions[1..]) && !IsCancelled(next, loopToken) {
      var k :| 0 <= k < |actions| - 1 && actions[1..][k].CancelOwn? && actions[1..][k].x < |next|
        && Under(next, loopToken, actions[1..][k].x);
      assert actions[k + 1] == actions[1..][k];
    }
    if CancelledBy(tree, loopToken, actions) && IsCancelled(next, loopToken) {
      assert CancelledBy(next, loopToken, actions[1..]);
    }
  }

  lemma {:induction false} RunAppend(s: System, actions: seq<Action>, a: Action)
    requires WellFormed(s)
    decreases |actions|
    ensures WellFormed(Run(s, actions)) && Run(s, actions + [a]) == Step(Run(s, actions), a)
  {
    hide Step, WellFormed;
    if actions == [] {
      assert [a][1..] == [] && [] + [a] == [a];
      StepKeepsWellFormed(s, a);
      assert Run(s, [a]) == Run(Step(s, a), []);
    } else {
      StepKeepsWellFormed(s, actions[0]);
      assert (actions + [a])[1..] == actions[1..] + [a];
      RunAppend(Step(s, actions[0]), actions[1..], a);
    }
  }

  lemma AcceptingStep(s: System, a: Action)
    requires WellFormed(s)
    ensures Step(s, a).accepting <==> s.accepting && !StopsLoop(s.tree, s.loopToken, s.loop, a)
  {
  }

  lemma SameStop(tree: Tree, own: Tree, loopToken: nat, loop: Loop, a: Action)
    requires Rooted(tree) && Rooted(own) && loopToken < |own| <= |tree| && tree[..|own|] == own
    ensures StopsLoop(tree, loopToken, loop, a) == StopsLoop(own, loopToken, loop, a)
  {
    assert own[..|own|] == own;
    SameHead(tree, own, |own|, loopToken);
  }

  lemma StopsAsTold(tree: Tree, loopToken: nat, loop: Loop, before: seq<Action>, a: Action)
    requires Rooted(tree) && loopToken < |tree|
    ensures StopsLoop(OwnTokens(tree, before), loopToken, loop, a) <==> EndsLoop(tree, loopToken, loop, before, a)
  {
    hide IsCancelled;
    OwnTokensCancelled(tree, loopToken, before);
  }

  /** In every run the loop accepts exactly if it has not noticed a cancellation that the program itself
      made, and, for `listen_tcp`, the endpoint has not closed and no single attempt has failed. */
  lemma {:induction false} AcceptsExactlyIf(tree: Tree, loopToken: nat, loop: Loop, actions: seq<Action>)
    requires Rooted(tree) && loopToken < |tree|
    decreases |actions|
    ensures Run(Initial(tree, loopToken, loop), actions).accepting <==> Unstopped(tree, loopToken, loop, actions)
  {
    var s0 := Initial(tree, loopToken, loop);
    assert s0.tree[..s0.base] == tree;
    RunKeepsInv(s0, []);
    hide Step, StopsLoop, EndsLoop, Inv;
    if actions != [] {
      var n := |actions| - 1;
      var init, a := actions[..n], actions[n];
      AcceptsExactlyIf(tree, loopToken, loop, init);
      InvIsWellFormed(s0);
      RunAppend(s0, init, a);
      assert actions == init + [a];
      RunKeepsInv(s0, init);
      var s := Run(s0, init);
      AcceptingStep(s, a);
      SameStop(s.tree, OwnTokens(tree, init), loopToken, loop, a);
      StopsAsTold(tree, loopToken, loop, init, a);
      assert forall k :: 0 <= k < n ==> actions[..k] == init[..k] && actions[k] == init[k];
    }
  }

  lemma {:induction false} RunConcat(s: System, a: seq<Action>, b: seq<Action>)
    requires WellFormed(s)
    decreases |a|
    ensures WellFormed(Run(s, a)) && Run(s, a + b) == Run(Run(s, a), b)
  {
    hide Step, WellFormed;
    if a == [] {
      assert a + b == b;
    } else {
      StepKeepsWellFormed(s, a[0]);
      assert (a + b)[1..] == a[1..] + b;
      RunConcat(Step(s, a[0]), a[1..], b);
    }
  }

  lemma {:induction false} StoppedForGood(s: System, actions: seq<Action>)
    requires WellFormed(s) && !s.accepting
    decreases |actions|
    ensures !Run(s, actions).accepting && |Run(s, actions).connections| == |s.connections|
  {
    if actions != [] {
      StepKeepsWellFormed(s, actions[0]);
      StoppedForGood(Step(s, actions[0]), actions[1..]);
    }
  }

  /** One attempt that cannot be accepted ends `listen_tcp` for everybody: whatever came before and comes
      later, no further connection is accepted. `connect_tcp` goes on as if nothing had happened. */
  lemma FailedAttempt(tree: Tree, loopToken: nat, loop: Loop, before: seq<Action>, later: seq<Action>)
    requires Rooted(tree) && loopToken < |tree|
    ensures var s0 := Initial(tree, loopToken, loop);
      var s, u := Run(s0, before), Run(s0, before + [AttemptFails] + later);
      match loop
      case ListenTcp => !u.accepting && |u.connections| == |s.connections|
      case ConnectTcp => u == Run(s0, before + later)
  {
    var s0 := Initial(tree, loopToken, loop);
    hide Run;
    RunConcat(s0, before + [AttemptFails], later);
    RunConcat(s0, before, later);
    RunAppend(s0, before, AttemptFails);
    var s := Run(s0, before);
    LoopIsFixed(s0, before);
    StepKeepsWellFormed(s, AttemptFails);
    if loop == ListenTcp {
      StoppedForGood(Step(s, AttemptFails), later);
    }
  }

  lemma {:induction false} LoopIsFixed(s: System, actions: seq<Action>)
    requires WellFormed(s)
    decreases |actions|
    ensures Run(s, actions).loop == s.loop
  {
    hide Step, WellFormed;
    if actions != [] {
      StepKeepsWellFormed(s, actions[0]);
      StepOnOwn(s, actions[0]);
      LoopIsFixed(Step(s, actions[0]), actions[1..]);
    }
  }

  lemma StepKeepsCancelled(s: System, a: Action, k: nat)
    requires WellFormed(s) && k < |s.tree| && IsCancelled(s.tree, k)
    ensures WellFormed(Step(s, a)) && k < |Step(s, a).tree| && IsCancelled(Step(s, a).tree, k)
  {
    StepKeepsWellFormed(s, a);
    var t := Step(s, a);
    if a.OnPump? && t.tree != s.tree {
      var c := s.connections[a.i];
      assert HoldsChild(s, c);
      CancelReaches(s.tree, c.sending.token, k);
    } else if a.CancelOwn? && a.x < s.base {
      CancelReaches(s.tree, a.x, k);
    } else {
      assert t.tree[..|s.tree|] == s.tree[..|s.tree|];
      SameHead(s.tree, t.tree, |s.tree|, k);
    }
  }

  /** How many connections were offered to the loop while nothing had ended it. */
  function Accepted(tree: Tree, loopToken: nat, loop: Loop, actions: seq<Action>): nat
    requires Rooted(tree) && loopToken < |tree|
  {
    if actions == [] then 0
    else
      var init := actions[..|actions| - 1];
      Accepted(tree, loopToken, loop, init)
      + if actions[|actions| - 1] == Accept && Unstopped(tree, loopToken, loop, init) then 1 else 0
  }

  lemma ConnectionsStep(s: System, a: Action)
    requires WellFormed(s)
    ensures |Step(s, a).connections| == |s.connections| + if a == Accept && s.accepting then 1 else 0
  {
  }

  /** In every run each connection that comes while the loop has not been ended gets a handler, and no other. */
  lemma {:induction false} EveryConnectionIsAccepted(tree: Tree, loopToken: nat, loop: Loop, actions: seq<Action>)
    requires Rooted(tree) && loopToken < |tree|
    decreases |actions|
    ensures |Run(Initial(tree, loopToken, loop), actions).connections| == Accepted(tree, loopToken, loop, actions)
  {
    var s0 := Initial(tree, loopToken, loop);
    hide Step, Unstopped;
    if actions != [] {
      var init, a := actions[..|actions| - 1], actions[|actions| - 1];
      EveryConnectionIsAccepted(tree, loopToken, loop, init);
      assert actions == init + [a];
      RunAppend(s0, init, a);
      AcceptsExactlyIf(tree, loopToken, loop, init);
      ConnectionsStep(Run(s0, init), a);
    }
  }

  lemma PumpNotices(s: System, i: nat, send: bool)
    requires WellFormed(s) && i < |s.connections| && s.connections[i].Forwarding?
    ensures WellFormed(PumpStep(s, i, send, NoticeCancel)) && HoldsChild(s, s.connections[i])
    ensures var t := PumpStep(s, i, send, NoticeCancel);
      var p := if send then s.connections[i].sending else s.connections[i].receiving;
      && |t.connections| == |s.connections| && t.connections[i].Forwarding? && TokenOf(t, i) == TokenOf(s, i)
      && (if send then t.connections[i].receiving == s.connections[i].receiving
          else t.connections[i].sending == s.connections[i].sending)
      && (if p.state == Copying && IsCancelled(s.tree, TokenOf(s, i))
          then (if send then t.connections[i].sending else t.connections[i].receiving).state == SawCancel
          else t == s)
  {
    StepKeepsWellFormed(s, OnPump(i, send, NoticeCancel));
    assert HoldsChild(s, s.connections[i]);
  }

  /** A pump that copies can end on a cancellation exactly when its token is cancelled: then both pumps of the
      connection can, one after the other; otherwise noticing a cancellation changes nothing. */
  lemma CancelledPumpsEnd(s: System, i: nat)
    requires WellFormed(s) && i < |s.connections| && s.connections[i].Forwarding?
    ensures TokenOf(s, i) < |s.tree|
    ensures var t := Run(s, [OnPump(i, true, NoticeCancel), OnPump(i, false, NoticeCancel)]);
      && i < |t.connections| && t.connections[i].Forwarding?
      && var c, d := s.connections[i], t.connections[i];
      if IsCancelled(s.tree, TokenOf(s, i)) then
        && d.sending.state == (if c.sending.state == Copying then SawCancel else c.sending.state)
        && d.receiving.state == (if c.receiving.state == Copying then SawCancel else c.receiving.state)
      else t == s
  {
    var first, second := OnPump(i, true, NoticeCancel), OnPump(i, false, NoticeCancel);
    PumpNotices(s, i, true);
    var u := Step(s, first);
    assert u == PumpStep(s, i, true, NoticeCancel);
    if IsCancelled(s.tree, TokenOf(s, i)) {
      StepKeepsCancelled(s, first, TokenOf(s, i));
    }
    PumpNotices(u, i, false);
    hide IsCancelled, PumpStep, WellFormed;
    StepKeepsWellFormed(s, first);
    StepKeepsWellFormed(u, second);
    assert [first, second][1..] == [second] && [second][1..] == [];
    assert Run(s, [first, second]) == Run(u, [second]) == Run(Step(u, second), []);
  }

  // ----- what the pumps come to, from the log alone -----

  /** Where the two pumps of a connection are, once they run. */
  datatype Pumps = NotYet | Pumps(sending: PumpState, receiving: PumpState)

  /** Connection `i` has been accepted; its pumps start with `Forward`. A pump that copies ends with its first
      end of file or I/O error, or when it notices that the loop's token was cancelled or that a pump of its
      own connection failed. */
  function PumpsAt(tree: Tree, loopToken: nat, loop: Loop, actions: seq<Action>, i: nat): Pumps
    requires Rooted(tree) && loopToken < |tree|
  {
    if actions == [] then NotYet
    else
      var init, a := actions[..|actions| - 1], actions[|actions| - 1];
      var was := PumpsAt(tree, loopToken, loop, init, i);
      if was == NotYet then
        if a == Forward(i) && i < Accepted(tree, loopToken, loop, init) then Pumps.Pumps(Copying, Copying) else NotYet
      else if !a.OnPump? || a.i != i then was
      else
        var cancelled := was.sending == IoFailed || was.receiving == IoFailed || IsCancelled(OwnTokens(tree, init), loopToken);
        if a.send then was.(sending := Next(was.sending, a.event, cancelled))
        else was.(receiving := Next(was.receiving, a.event, cancelled))
  }

  function Next(state: PumpState, event: PumpEvent, cancelled: bool): PumpState {
    if state != Copying then state
    else
      match event
      case Eof => AtEof
      case IoError => IoFailed
      case NoticeCancel => if cancelled then SawCancel else Copying
  }

  function PumpsOf(c: Connection): Pumps {
    match c
    case Handling => NotYet
    case Forwarding(sending, receiving) => Pumps.Pumps(sending.state, receiving.state)
  }

  /** What a step does to the pumps of a connection that is there. */
  lemma PumpsStep(s: System, a: Action, i: nat)
    requires WellFormed(s) && i < |s.connections|
    ensures s.connections[i].Forwarding? ==> TokenOf(s, i) < |s.tree|
    ensures i < |Step(s, a).connections|
    ensures var was, now := PumpsOf(s.connections[i]), PumpsOf(Step(s, a).connections[i]);
      now ==
        if was == NotYet then if a == Forward(i) then Pumps.Pumps(Copying, Copying) else NotYet
        else if !a.OnPump? || a.i != i then was
        else
          var cancelled := IsCancelled(s.tree, TokenOf(s, i));
          if a.send then was.(sending := Next(was.sending, a.event, cancelled))
          else was.(receiving := Next(was.receiving, a.event, cancelled))
  {
    assert HoldsChild(s, s.connections[i]);
    hide IsCancelled;
  }

  /** A connection that was just accepted waits for its handler. */
  lemma NewConnection(s: System, a: Action)
    requires WellFormed(s)
    ensures forall i :: |s.connections| <= i < |Step(s, a).connections| ==> Step(s, a).connections[i] == Handling
  {
  }

  lemma {:induction false} NoPumpsBefore(tree: Tree, loopToken: nat, loop: Loop, actions: seq<Action>, i: nat)
    requires Rooted(tree) && loopToken < |tree| && i >= Accepted(tree, loopToken, loop, actions)
    ensures PumpsAt(tree, loopToken, loop, actions, i) == NotYet
  {
    hide Unstopped, IsCancelled;
    if actions != [] {
      NoPumpsBefore(tree, loopToken, loop, actions[..|actions| - 1], i);
    }
  }

  /** In every run the pumps of every connection are where the log says. */
  lemma {:induction false} LogTellsPumps(tree: Tree, loopToken: nat, loop: Loop, actions: seq<Action>, i: nat)
    requires Rooted(tree) && loopToken < |tree|
    requires i < |Run(Initial(tree, loopToken, loop), actions).connections|
    decreases |actions|
    ensures PumpsOf(Run(Initial(tree, loopToken, loop), actions).connections[i]) == PumpsAt(tree, loopToken, loop, actions, i)
  {
    var s0 := Initial(tree, loopToken, loop);
    hide Step, IsCancelled, Unstopped, Accepted, StopsLoop;
    if actions != [] {
      var init, a := actions[..|actions| - 1], actions[|actions| - 1];
      assert actions == init + [a];
      RunAppend(s0, init, a);
      var s := Run(s0, init);
      EveryConnectionIsAccepted(tree, loopToken, loop, init);
      if i < |s.connections| {
        LogTellsPumps(tree, loopToken, loop, init, i);
        PumpsStep(s, a, i);
        if s.connections[i].Forwarding? {
          WhyCancelled(tree, loopToken, loop, init, i);
        }
      } else {
        NewConnection(s, a);
        NoPumpsBefore(tree, loopToken, loop, init, i);
      }
    }
  }

  lemma WhyCancelled(tree: Tree, loopToken: nat, loop: Loop, actions: seq<Action>, i: nat)
    requires Rooted(tree) && loopToken < |tree|
    requires i < |Run(Initial(tree, loopToken, loop), actions).connections|
    requires Run(Initial(tree, loopToken, loop), actions).connections[i].Forwarding?
    ensures var s := Run(Initial(tree, loopToken, loop), actions);
      && WellFormed(s) && TokenOf(s, i) < |s.tree|
      && (IsCancelled(s.tree, TokenOf(s, i))
          <==> HasIoError(s.connections[i]) || IsCancelled(OwnTokens(tree, actions), loopToken))
  {
    CancelledExactlyIf(tree, loopToken, loop, actions, i);
    var s := Run(Initial(tree, loopToken, loop), actions);
    var own := OwnTokens(tree, actions);
    assert own[..|own|] == own;
    SameHead(s.tree, own, |own|, loopToken);
  }

  // ----- connections do not disturb each other -----

  predicate ConcernsOther(a: Action, i: nat) {
    a.OnPump? && a.i != i
  }

  /** The run without what the pumps of other connections do. */
  function Without(actions: seq<Action>, i: nat): seq<Action> {
    if actions == [] then []
    else (if ConcernsOther(actions[0], i) then [] else [actions[0]]) + Without(actions[1..], i)
  }

  /** Of two connections, the same but for what their pumps have come to. */
  predicate SameTokens(c: Connection, d: Connection) {
    c == d || (c.Forwarding? && d.Forwarding? && c.sending.token == d.sending.token)
  }

  predicate SameShape(s: System, t: System) {
    && s.base == t.base <= |s.tree| == |t.tree| && s.loopToken == t.loopToken && s.loop == t.loop
    && s.accepting == t.accepting
    && s.tree[..s.base] == t.tree[..s.base]
    && |s.connections| == |t.connections|
    && (forall j :: 0 <= j < |s.connections| ==> SameTokens(s.connections[j], t.connections[j]))
  }

  predicate SameAt(s: System, t: System, i: nat) {
    i < |s.connections| && i < |t.connections| ==>
      && s.connections[i] == t.connections[i]
      && (s.connections[i].Forwarding? ==>
            TokenOf(s, i) < |s.tree| && TokenOf(s, i) < |t.tree| && s.tree[TokenOf(s, i)] == t.tree[TokenOf(s, i)])
  }

  predicate SameFor(s: System, t: System, i: nat) {
    SameShape(s, t) && SameAt(s, t, i)
  }

  lemma OtherStep(s: System, t: System, a: Action, i: nat)
    requires Inv(s) && Inv(t) && SameFor(s, t, i) && ConcernsOther(a, i)
    ensures WellFormed(Step(s, a)) && SameFor(Step(s, a), t, i)
  {
    hide IsCancelled;
    StepKeepsWellFormed(s, a);
    StepOnOwn(s, a);
    if i < |s.connections| && s.connections[i].Forwarding? {
      TokenStep(s, a, i);
    }
  }

  lemma SameCancelled(s: System, t: System, i: nat)
    requires WellFormed(s) && WellFormed(t) && SameFor(s, t, i)
    ensures IsCancelled(s.tree, s.loopToken) == IsCancelled(t.tree, t.loopToken)
    ensures i < |s.connections| && s.connections[i].Forwarding? ==>
      TokenOf(s, i) < |s.tree| && TokenOf(t, i) < |t.tree| &&
      IsCancelled(s.tree, TokenOf(s, i)) == IsCancelled(t.tree, TokenOf(t, i))
  {
    SameHead(s.tree, t.tree, s.base, s.loopToken);
    if i < |s.connections| && s.connections[i].Forwarding? {
      hide IsCancelled;
      CancelledByParent(s, i);
      CancelledByParent(t, i);
    }
  }

  lemma OwnShape(s: System, t: System, a: Action)
    requires WellFormed(s) && WellFormed(t) && SameShape(s, t)
    requires IsCancelled(s.tree, s.loopToken) == IsCancelled(t.tree, t.loopToken)
    ensures SameShape(Step(s, a), Step(t, a))
  {
    hide IsCancelled;
    StepOnOwn(s, a);
    StepOnOwn(t, a);
  }

  lemma PumpAt(s: System, t: System, i: nat, send: bool, event: PumpEvent)
    requires WellFormed(s) && WellFormed(t) && SameAt(s, t, i)
    requires i < |s.connections| && i < |t.connections| && s.connections[i].Forwarding?
    requires IsCancelled(s.tree, TokenOf(s, i)) == IsCancelled(t.tree, TokenOf(t, i))
    ensures SameAt(PumpStep(s, i, send, event), PumpStep(t, i, send, event), i)
  {
    assert HoldsChild(s, s.connections[i]) && HoldsChild(t, t.connections[i]);
    hide IsCancelled, WellFormed;
  }

  lemma OtherAt(s: System, t: System, a: Action, i: nat)
    requires Inv(s) && Inv(t) && SameAt(s, t, i) && !(a.OnPump? && a.i == i)
    requires i < |s.connections| && i < |t.connections| && s.connections[i].Forwarding?
    ensures SameAt(Step(s, a), Step(t, a), i)
  {
    hide IsCancelled, Explained, Apart, Step, WellFormed;
    TokenStep(s, a, i);
    TokenStep(t, a, i);
  }

  lemma OwnStep(s: System, t: System, a: Action, i: nat)
    requires Inv(s) && Inv(t) && SameFor(s, t, i) && !ConcernsOther(a, i)
    ensures WellFormed(Step(s, a)) && SameFor(Step(s, a), Step(t, a), i)
  {
    hide IsCancelled, SameTokens, HoldsChild, Explained, Apart;
    StepKeepsWellFormed(s, a);
    SameCancelled(s, t, i);
    OwnShape(s, t, a);
    if i >= |s.connections| || s.connections[i].Handling? {
      StartsSame(s, t, a, i);
    } else if a.OnPump? {
      PumpAt(s, t, i, a.send, a.event);
    } else {
      OtherAt(s, t, a, i);
    }
  }

  lemma StartsSame(s: System, t: System, a: Action, i: nat)
    requires WellFormed(s) && WellFormed(t) && SameFor(s, t, i)
    requires i < |s.connections| ==> s.connections[i].Handling?
    ensures SameAt(Step(s, a), Step(t, a), i)
  {
    hide IsCancelled, SameTokens;
  }

  /** Whatever the pumps of all other connections do, and however they interleave with the rest: the
      connection, its token, the accept loop and the program's tokens end up as if those pumps had done
      nothing. */
  lemma {:induction false} OthersDoNotMatter(s: System, t: System, actions: seq<Action>, i: nat)
    requires Inv(s) && Inv(t) && SameFor(s, t, i)
    decreases |actions|
    ensures WellFormed(Run(s, actions)) && SameFor(Run(s, actions), Run(t, Without(actions, i)), i)
  {
    hide Step, Inv, SameFor, ConcernsOther;
    InvIsWellFormed(s);
    InvIsWellFormed(t);
    if actions != [] {
      var a, rest := actions[0], actions[1..];
      StepKeepsInv(s, a);
      InvIsWellFormed(Step(s, a));
      if ConcernsOther(a, i) {
        assert Without(actions, i) == Without(rest, i);
        OtherStep(s, t, a, i);
        OthersDoNotMatter(Step(s, a), t, rest, i);
      } else {
        assert Without(actions, i)[1..] == Without(rest, i);
        StepKeepsInv(t, a);
        OwnStep(s, t, a, i);
        OthersDoNotMatter(Step(s, a), Step(t, a), rest, i);
      }
    }
  }

  /** A cancelled token never becomes live again, nor does any that is below it. */
  lemma {:induction false} CancelledForGood(s: System, actions: seq<Action>, k: nat)
    requires WellFormed(s) && k < |s.tree| && IsCancelled(s.tree, k)
    decreases |actions|
    ensures WellFormed(Run(s, actions)) && k < |Run(s, actions).tree| && IsCancelled(Run(s, actions).tree, k)
  {
    hide Step, IsCancelled, WellFormed;
    if actions != [] {
      StepKeepsCancelled(s, actions[0], k);
      CancelledForGood(Step(s, actions[0]), actions[1..], k);
    }
  }
}
